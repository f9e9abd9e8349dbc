/**
 The EBML code and the `k1` fixture in terms of bytes: which widths hold which sizes, what is read where, what the
 padding consists of, and which Blocks end up in the new group.
 */
module EbmlMeaning {
  import opened Bits
  import opened Bytes
  import opened Wrappers
  import opened EbmlVint
  import opened EbmlWalk
  import opened EbmlLacing
  import opened EbmlK1

  // ----- Sizes

  /** A size is printed on `n` bytes exactly if it is below `2^(7n) - 1`, as that number with bit `7n` set. */
  lemma WidthMeans(value: nat, n: nat)
    ensures VintWithLength(value, n).Success? <==> 1 <= n <= 8 && value < Pow2(7 * n) - 1
    ensures VintWithLength(value, n).Success? ==> VintWithLength(value, n).value == BigEndian(value + Pow2(7 * n), n)
    ensures VintWithLength(value, n).Failure? ==> VintWithLength(value, n).error == ValueError
  {
    hide Pow2, BigEndian, Or;
    if VintWithLength(value, n).Success? {
      VintShape(value, n);
    }
  }

  /** Without a width, the smallest of the eight is taken that holds the size. */
  lemma DefaultWidthMeans(value: nat)
    ensures Vint(value).Success? <==> value < Pow2(56) - 1
    ensures Vint(value).Failure? ==> Vint(value).error == StopIteration
    ensures Vint(value).Success? ==>
              var n := |Vint(value).value|;
              && 1 <= n <= 8 && value < Pow2(7 * n) - 1 && (forall m :: 1 <= m < n ==> value >= Pow2(7 * m) - 1)
              && Vint(value).value == BigEndian(value + Pow2(7 * n), n)
  {
    hide Pow2, BigEndian, VintWithLength;
    VintIsMinimal(value);
    forall n: nat
      ensures VintWithLength(value, n).Success? <==> 1 <= n <= 8 && value < Pow2(7 * n) - 1
      ensures VintWithLength(value, n).Success? ==>
                VintWithLength(value, n).value == BigEndian(value + Pow2(7 * n), n)
    {
      WidthMeans(value, n);
    }
    DefaultLengthIsMinimal(value, 1);
  }

  // ----- Headers

  /** The `n` bytes at `offset` are the number `x`, whose highest bit is bit `7n`. */
  ghost predicate Spells(data: bytes, offset: nat, x: nat, n: nat) {
    && 1 <= n <= 8 && Pow2(7 * n) <= x < 2 * Pow2(7 * n)
    && offset + n <= |data| && data[offset..offset + n] == BigEndian(x, n)
  }

  ghost predicate HasNumber(data: bytes, offset: nat) {
    exists x: nat, n: nat :: Spells(data, offset, x, n)
  }

  lemma SpelledIsRead(data: bytes, offset: nat, x: nat, n: nat)
    requires Spells(data, offset, x, n)
    ensures ReadHeader(data, offset, false) == Success(Header(x, n))
    ensures ReadHeader(data, offset, true) == Success(Header(x - Pow2(7 * n), n))
  {
    ReadMarked(data, offset, x, n);
  }

  /** A header is read exactly if the bytes spell a number; behind the data that is an index error. */
  lemma HeaderMeans(data: bytes, offset: nat, size: bool)
    ensures ReadHeader(data, offset, size).Success? <==> HasNumber(data, offset)
    ensures forall x: nat, n: nat :: Spells(data, offset, x, n) ==>
              ReadHeader(data, offset, size) == Success(Header(if size then x - Pow2(7 * n) else x, n))
    ensures ReadHeader(data, offset, size).Failure? ==>
              ReadHeader(data, offset, size).error == if offset >= |data| then IndexError else ValueError
  {
    forall x: nat, n: nat | Spells(data, offset, x, n)
      ensures ReadHeader(data, offset, size) == Success(Header(if size then x - Pow2(7 * n) else x, n))
    {
      SpelledIsRead(data, offset, x, n);
    }
    if ReadHeader(data, offset, size).Success? {
      ReadMeans(data, offset);
      var Header(x, n) := ReadHeader(data, offset, false).value;
      assert Spells(data, offset, x, n);
    }
  }

  /** One step of the walk: an element with this ID and size, or an error if it ends too late. */
  lemma StepMeans(data: bytes, start: nat, end: nat, id: nat, n: nat, size: nat, m: nat)
    requires start < end && Spells(data, start, id, n) && Spells(data, start + n, size + Pow2(7 * m), m)
    ensures var payload := start + n + m;
            WalkChildren(data, start, end)
            == if payload + size > end then Walk([], Some(ValueError))
               else Prepend([Child(id, start, payload, payload + size)], WalkChildren(data, payload + size, end))
  {
    hide ReadHeader, Spells, Pow2;
    SpelledIsRead(data, start, id, n);
    SpelledIsRead(data, start + n, size + Pow2(7 * m), m);
  }

  /** The walk ends with an error where an ID or a size cannot be read. */
  lemma StopMeans(data: bytes, start: nat, end: nat)
    requires start < end
    requires forall id: nat, n: nat :: Spells(data, start, id, n) ==> !HasNumber(data, start + n)
    ensures WalkChildren(data, start, end).items == [] && WalkChildren(data, start, end).error.Some?
  {
    hide ReadHeader, Spells;
    HeaderMeans(data, start, false);
    if id: nat, n: nat :| Spells(data, start, id, n) {
      HeaderMeans(data, start + n, true);
    }
  }

  // ----- Padding

  /** The padding is a Void element: `0xEC`, its size on the fewest bytes that leave no byte over, and zeros. */
  lemma PaddingMeans(replacement: bytes, length: int) returns (n: nat, void: bytes)
    requires Pad(replacement, length).Success? && length != |replacement|
    ensures var gap := length - |replacement|;
            && 1 <= n <= 8 && 0 <= gap - 1 - n < Pow2(7 * n) - 1
            && (forall m :: 1 <= m < n ==> !(0 <= gap - 1 - m < Pow2(7 * m) - 1))
            && void == [0xEC] + BigEndian(gap - 1 - n + Pow2(7 * n), n) + seq(gap - 1 - n, _ => 0)
            && Pad(replacement, length).value == replacement + void
  {
    hide Pow2, Pad, VoidElement;
    var gap := length - |replacement|;
    PadShape(replacement, length);
    n := VoidWidth(gap, 1).value;
    hide VoidWidth;
    forall m | 1 <= m < n
      ensures !(0 <= gap - 1 - m < Pow2(7 * m) - 1)
    {
      if 0 <= gap - 1 - m < Pow2(7 * m) - 1 {
        WidthIsMinimal(gap, 1, m);
      }
    }
    VoidMeans(gap - 1 - n, n);
    void := VoidElement(gap - 1 - n, n);
  }

  lemma VoidMeans(payload: nat, n: nat)
    requires 1 <= n <= 8 && payload < Limit(n)
    ensures VoidElement(payload, n) == [0xEC] + BigEndian(payload + Pow2(7 * n), n) + seq(payload, _ => 0)
  {
    hide Pow2, BigEndian, VintWithLength;
    WidthMeans(payload, n);
    assert Zeros(payload) == seq(payload, _ => 0);
  }

  // ----- The new group

  /** The frames come from the first Block of the first group and the first Block of the second, in this order. */
  lemma FramesMean(data: bytes)
    requires Prepare(data).Success?
    ensures var s := Prepare(data).value;
            && Locate(data) == Success(s.target)
            && BlockOf(data, s.target.children[s.target.first]) == Success(s.first)
            && BlockOf(data, s.target.children[s.target.second]) == Success(s.second)
  {
    hide Locate, BlockOf, BlockElement, EbmlElement, Pad;
  }

  /** A Block's header is its track number and three bytes, the last of them without the bits 1 and 2. */
  lemma BlockHeaderMeans(data: bytes, group: Child)
    requires BlockOf(data, group).Success?
    ensures var b := BlockOf(data, group).value;
            && HasNumber(b.header + b.frame, 0) && |b.header| >= 4
            && (forall x: nat, n: nat :: Spells(b.header + b.frame, 0, x, n) ==> |b.header| == n + 3)
            && b.header[|b.header| - 1] % 8 <= 1
  {
    hide And, WalkChildren, ReadHeader, BlockOf, Spells;
    var b := BlockOf(data, group).value;
    HeaderMeans(b.header + b.frame, 0, false);
    AndSix(b.header[|b.header| - 1]);
  }

  /** The new Block's bytes: the header with both bits set, one further frame, the first frame's size, both frames. */
  lemma LaceMeans(first: Block, second: Block)
    requires Unlaced(first) && Lace(first, second).Success?
    ensures var last := |first.header| - 1;
            && first.header[last] < 250 && Vint(|first.frame|).Success?
            && Lace(first, second).value
               == first.header[..last] + [first.header[last] + 6, 1] + Vint(|first.frame|).value
                  + first.frame + second.frame
  {
    hide And, Or, Vint, ReadHeader;
    var last := |first.header| - 1;
    SetLacingBits(first.header[last]);
    assert LacedHeader(first.header) + [1] == first.header[..last] + [first.header[last] + 6, 1];
  }

  /** Where the groups were, the new Cluster has a BlockGroup from the same place and at most a Void up to the end. */
  lemma NewClusterMeans(data: bytes)
    requires K1(data).Success? && Locate(data).Success?
    ensures var t := Locate(data).value;
            var w := WalkChildren(K1(data).value, t.cluster.payload, t.cluster.end);
            && w.error.None? && t.first < |w.items|
            && w.items[..t.first] == t.children[..t.first]
            && w.items[t.first].id == 0xA0 && w.items[t.first].offset == t.From()
            && (if w.items[t.first].end == t.To() then w.items[t.first + 1..] == t.children[t.second + 1..]
                else
                  && t.first + 1 < |w.items|
                  && w.items[t.first + 1].id == 0xEC && w.items[t.first + 1].offset == w.items[t.first].end
                  && w.items[t.first + 1].end == t.To() && w.items[t.first + 2..] == t.children[t.second + 1..])
  {
    hide WalkChildren, K1, Locate, Prepare, VoidWidth, Pow2, NewChildren, BlockElement, EbmlElement, Pad;
    K1Means(data);
    K1ClusterWalk(data);
    var s := Prepare(data).value;
    NewChildrenAre(s.target.From(), s.target.To(), s.replacement, |s.block|);
  }

  lemma NewChildrenAre(from: nat, to: nat, replacement: bytes, inner: nat)
    requires inner <= |replacement| && from + |replacement| <= to
    requires Pad(replacement, to - from).Success?
    ensures var added := NewChildren(from, to, replacement, inner);
            && added != [] && added[0].id == 0xA0 && added[0].offset == from && added[0].end == from + |replacement|
            && (added[0].end == to ==> |added| == 1)
            && (added[0].end != to ==>
                  |added| == 2 && added[1].id == 0xEC && added[1].offset == added[0].end && added[1].end == to)
  {
    hide VoidElement;
    NoWidth(0, 1);
  }
}
