/**
 When the `k1` surgery succeeds: the gap it has to pad is arithmetic on header and frame lengths. It is at least two
 bytes for every source whose two groups take less than 2^28 + 12 bytes, and one byte for a source of that size.
 */
module EbmlK1Gap {
  import opened Bits
  import opened Bytes
  import opened Wrappers
  import opened EbmlVint
  import opened EbmlWalk
  import opened EbmlK1

  // ----- Lengths of what is printed

  /** The width `vint` chooses for a size that fits eight bytes. */
  function SizeWidth(size: nat): (n: nat)
    ensures 1 <= n <= 8
  {
    if size < 0x7F then 1
    else if size < 0x3FFF then 2
    else if size < 0x1F_FFFF then 3
    else if size < 0xFFF_FFFF then 4
    else if size < 0x7_FFFF_FFFF then 5
    else if size < 0x3FF_FFFF_FFFF then 6
    else if size < 0x1_FFFF_FFFF_FFFF then 7
    else 8
  }

  /** An element with a one-byte ID. */
  function ElementLength(payload: nat): nat {
    1 + SizeWidth(payload) + payload
  }

  /** The payload of the laced Block, from the lengths of the first header and the two frames. */
  function LaceLength(header: nat, first: nat, second: nat): nat {
    header + 1 + SizeWidth(first) + first + second
  }

  function BlockLength(header: nat, first: nat, second: nat): nat {
    ElementLength(LaceLength(header, first, second))
  }

  function GroupLength(header: nat, first: nat, second: nat): nat {
    ElementLength(BlockLength(header, first, second))
  }

  lemma Limits()
    ensures Limit(0) == 0 && Limit(1) == 0x7F && Limit(2) == 0x3FFF && Limit(3) == 0x1F_FFFF
    ensures Limit(4) == 0xFFF_FFFF && Limit(5) == 0x7_FFFF_FFFF && Limit(6) == 0x3FF_FFFF_FFFF
    ensures Limit(7) == 0x1_FFFF_FFFF_FFFF && Limit(8) == 0xFF_FFFF_FFFF_FFFF
  {
    Pow2Values();
    hide Pow2;
    Pow2Add(7, 7);
    Pow2Add(14, 7);
    Pow2Add(21, 7);
    Pow2Add(28, 7);
    Pow2Add(35, 7);
    Pow2Add(42, 7);
    Pow2Add(49, 7);
  }

  lemma SizeWidthMeans(size: nat)
    ensures Vint(size).Success? <==> size < Limit(8)
    ensures Vint(size).Success? ==> |Vint(size).value| == SizeWidth(size)
  {
    hide Vint, Limit, BigEndian, Or, Pow2;
    VintIsMinimal(size);
    Limits();
    if size < Limit(8) {
      var n := |Vint(size).value|;
      VintShape(size, n);
      assert n > 1 ==> VintWithLength(size, n - 1).Failure?;
    }
  }

  lemma ElementLengthMeans(id: nat, payload: bytes)
    requires 128 <= id < 256
    ensures EbmlElement(id, payload).Success? <==> |payload| < Limit(8)
    ensures EbmlElement(id, payload).Success? ==> |EbmlElement(id, payload).value| == ElementLength(|payload|)
  {
    hide Vint, Limit, BigEndian, Pow2, SizeWidth, EbmlId;
    SizeWidthMeans(|payload|);
    MarkedOneByte(id);
    IdShape(id, 1);
  }

  // ----- The gap

  /** The target is found and both of its Blocks are unlaced and long enough. */
  predicate Readable(data: bytes) {
    && Locate(data).Success?
    && var t := Locate(data).value;
       BlockOf(data, t.children[t.first]).Success? && BlockOf(data, t.children[t.second]).Success?
  }

  function FirstBlock(data: bytes): (b: Block)
    requires Readable(data)
    ensures Unlaced(b)
  {
    var t := Locate(data).value;
    BlockOf(data, t.children[t.first]).value
  }

  function SecondBlock(data: bytes): (b: Block)
    requires Readable(data)
    ensures Unlaced(b)
  {
    var t := Locate(data).value;
    BlockOf(data, t.children[t.second]).value
  }

  /** The bytes from the start of the first group to the end of the second. */
  function Span(data: bytes): int
    requires Locate(data).Success?
  {
    Locate(data).value.To() - Locate(data).value.From()
  }

  /** What the new group falls short of the span. */
  function Gap(data: bytes): int
    requires Readable(data)
  {
    Span(data) - GroupLength(|FirstBlock(data).header|, |FirstBlock(data).frame|, |SecondBlock(data).frame|)
  }

  lemma GroupLengthMeans(first: Block, second: Block)
    requires Unlaced(first)
    ensures var h, f, g := |first.header|, |first.frame|, |second.frame|;
            && (BlockElement(first, second).Success? ==> |BlockElement(first, second).value| == BlockLength(h, f, g))
            && (BlockLength(h, f, g) < Limit(8) ==> BlockElement(first, second).Success?)
  {
    hide Vint, Limit, SizeWidth, EbmlElement, ReadHeader, And;
    SizeWidthMeans(|first.frame|);
    if Lace(first, second).Success? {
      ElementLengthMeans(BLOCK, Lace(first, second).value);
    }
  }

  /** The new Block is short enough for a size of eight bytes. */
  predicate Fits(data: bytes)
    requires Readable(data)
  {
    BlockLength(|FirstBlock(data).header|, |FirstBlock(data).frame|, |SecondBlock(data).frame|) < Limit(8)
  }

  /**
   The script succeeds exactly if the source is readable, the new Block is shorter than 2^56 - 1 bytes, and the new
   group is as long as the span or falls short of it by 2 to 2^56 + 7 bytes. Any other gap is a ValueError.
   */
  lemma K1SucceedsExactly(data: bytes)
    ensures K1(data).Success? <==>
              Readable(data) && Fits(data) && (Gap(data) == 0 || 2 <= Gap(data) <= Pow2(56) + 7)
    ensures Readable(data) && Fits(data) && !(Gap(data) == 0 || 2 <= Gap(data) <= Pow2(56) + 7) ==>
              K1(data) == Failure(ValueError)
  {
    hide WalkChildren, BlockOf, BlockElement, EbmlElement, Locate, Pow2, Slice, Limit, BlockLength, VoidWidth,
        VoidElement;
    if Readable(data) {
      var first, second := FirstBlock(data), SecondBlock(data);
      GroupLengthMeans(first, second);
      if BlockElement(first, second).Success? {
        var block := BlockElement(first, second).value;
        ElementLengthMeans(BLOCK_GROUP, block);
        if EbmlElement(BLOCK_GROUP, block).Success? {
          PaddingIsExact(EbmlElement(BLOCK_GROUP, block).value, Span(data));
        }
      }
    }
  }

  // ----- The gap of real sources

  /** A size that a reader took from `w` bytes. */
  ghost predicate FitsWidth(size: nat, w: nat) {
    && 1 <= w <= 8 && (size >= 0x80 ==> w >= 2) && (size >= 0x4000 ==> w >= 3)
    && (size >= 0x20_0000 ==> w >= 4) && (size >= 0x1000_0000 ==> w >= 5)
  }

  lemma WidthOfSize(size: nat, w: nat)
    requires 1 <= w <= 8 && size < Pow2(7 * w)
    ensures FitsWidth(size, w)
  {
    Limits();
  }

  /** An element with a one-byte ID, as the walker found it. */
  lemma ChildShape(data: bytes, start: nat, end: nat, i: nat) returns (w: nat)
    requires i < |WalkChildren(data, start, end).items|
    requires 128 <= WalkChildren(data, start, end).items[i].id < 256
    ensures var c := WalkChildren(data, start, end).items[i];
            && start <= c.offset && c.payload == c.offset + 1 + w && c.payload <= c.end <= end
            && FitsWidth(c.end - c.payload, w)
  {
    hide ReadHeader, Pow2, BigEndian, WalkChildren;
    WalkSplits(data, start, end, i);
    WalkIsContiguous(data, start, end);
    var c := WalkChildren(data, start, end).items[i];
    ReadMeans(data, c.offset);
    var id := ReadHeader(data, c.offset, false).value;
    OneByteId(c.id, id.length);
    SizeRead(data, c.offset + id.length);
    w := ReadHeader(data, c.offset + id.length, true).value.length;
    WidthOfSize(c.end - c.payload, w);
  }

  lemma OneByteId(id: nat, n: nat)
    requires Marked(id, n) && id < 256
    ensures n == 1
  {
    Limits();
  }

  lemma SizeRead(data: bytes, offset: nat)
    requires ReadHeader(data, offset, true).Success?
    ensures var h := ReadHeader(data, offset, true).value; h.value < Pow2(7 * h.length)
  {
    hide Pow2, BigEndian, FromBigEndian, MarkerPosition;
    ReadMeans(data, offset);
  }

  /** The widths of a group and of its Block, and how much of the group its Block takes. */
  lemma GroupShape(data: bytes, start: nat, end: nat, i: nat, b: Block) returns (w: nat, v: nat)
    requires end <= |data| && i < |WalkChildren(data, start, end).items|
    requires var c := WalkChildren(data, start, end).items[i]; c.id == BLOCK_GROUP && BlockOf(data, c) == Success(b)
    ensures var c, payload := WalkChildren(data, start, end).items[i], |b.header| + |b.frame|;
            && c.end - c.offset >= 2 + w + v + payload
            && FitsWidth(payload, v) && FitsWidth(1 + v + payload, w)
            && 4 <= |b.header| <= 11
  {
    hide WalkChildren, ReadHeader, FitsWidth, And;
    var c := WalkChildren(data, start, end).items[i];
    w := ChildShape(data, start, end, i);
    var inner := WalkChildren(data, c.payload, c.end);
    var at := NextWithId(Walk(inner.items, None), BLOCK).value;
    v := ChildShape(data, c.payload, c.end, at);
    SmallerFits(1 + v + |b.header| + |b.frame|, c.end - c.payload, w);
  }

  lemma SmallerFits(size: nat, larger: nat, w: nat)
    requires size <= larger && FitsWidth(larger, w)
    ensures FitsWidth(size, w)
  {
  }

  /** The sizes that the old groups spend on headers leave at least two bytes. */
  lemma GapArithmetic(span: int, w: nat, v: nat, h: nat, f: nat, w': nat, v': nat, h': nat, f': nat)
    requires 4 <= h <= 11 && 4 <= h' <= 11 && span < 0x1000_000C
    requires FitsWidth(h + f, v) && FitsWidth(1 + v + h + f, w)
    requires FitsWidth(h' + f', v') && FitsWidth(1 + v' + h' + f', w')
    requires span >= (2 + w + v + h + f) + (2 + w' + v' + h' + f')
    ensures span - GroupLength(h, f, f') >= 2
    ensures BlockLength(h, f, f') < 0xFF_FFFF_FFFF_FFFF
  {
    var lace := LaceLength(h, f, f');
    var block := ElementLength(lace);
    assert SizeWidth(f) <= v;
    assert lace < 0x1000_0000 + 8 && block < 0x1000_0000 + 16;
    if block >= 0xFFF_FFFF {
      assert SizeWidth(block) == 5 && SizeWidth(lace) <= 5;
      assert f >= 0x20_0000 || f' >= 0x20_0000;
    } else if block >= 0x1F_FFFF {
      assert SizeWidth(block) == 4 && SizeWidth(lace) <= 4;
      assert f >= 0x4000 || f' >= 0x4000;
    } else if block >= 0x3FFF {
      assert SizeWidth(block) == 3 && SizeWidth(lace) <= 3;
      assert f >= 0x80 || f' >= 0x80;
    }
  }

  lemma LimitEight()
    ensures Limit(8) == 0xFF_FFFF_FFFF_FFFF
  {
    hide Limit;
    Limits();
  }

  /** Two groups that take less than 2^28 + 12 bytes always leave room for a Void element. */
  lemma GapAtLeastTwo(data: bytes)
    requires Readable(data) && Span(data) < 0x1000_000C
    ensures Gap(data) >= 2 && Fits(data)
  {
    hide WalkChildren, BlockOf, Locate, GroupLength, BlockLength, FitsWidth, Limit, Pow2, And, ReadHeader, Contiguous;
    LocateMeans(data);
    LimitEight();
    var t := Locate(data).value;
    var start, end := t.cluster.payload, t.cluster.end;
    WalkIsContiguous(data, start, end);
    LaterStartsAfter(t.children, start, end, t.first, t.second);
    var first, second := FirstBlock(data), SecondBlock(data);
    var w, v := GroupShape(data, start, end, t.first, first);
    var w', v' := GroupShape(data, start, end, t.second, second);
    GapArithmetic(Span(data), w, v, |first.header|, |first.frame|, w', v', |second.header|, |second.frame|);
  }

  /** For such a source the script succeeds if and only if it is readable. */
  lemma K1SucceedsOnReadable(data: bytes)
    requires Locate(data).Success? ==> Span(data) < 0x1000_000C
    ensures K1(data).Success? <==> Readable(data)
  {
    hide K1, Locate, Gap, Fits, Pow2;
    K1SucceedsExactly(data);
    if Readable(data) {
      GapAtLeastTwo(data);
      GapSmall(data);
    }
  }

  lemma GapSmall(data: bytes)
    requires Readable(data) && Span(data) < 0x1000_000C
    ensures Gap(data) <= Pow2(56) + 7
  {
    hide Locate, BlockOf;
    Limits();
  }

  // ----- A source with a gap of one byte

  function PrintGroup(b: Block): Result<bytes, Error> {
    var block :- EbmlElement(BLOCK, b.header + b.frame);
    EbmlElement(BLOCK_GROUP, block)
  }

  /** A Segment that holds one Cluster with one BlockGroup for each of two Blocks. */
  function PrintSource(first: Block, second: Block): Result<bytes, Error> {
    var a :- PrintGroup(first);
    var b :- PrintGroup(second);
    var cluster :- EbmlElement(CLUSTER, a + b);
    EbmlElement(SEGMENT, cluster)
  }

  lemma SplitPrinted(b: Block)
    requires Unlaced(b)
    ensures SplitBlock(b.header + b.frame) == Success(b)
  {
    hide ReadHeader, And;
    var payload := b.header + b.frame;
    assert payload[..|b.header|] == b.header && payload[|b.header|..] == b.frame;
  }

  /** The only child of a group is its Block. */
  lemma BlockOfOnly(data: bytes, group: Child, c: Child, b: Block)
    requires Unlaced(b) && c.id == BLOCK && WalkChildren(data, group.payload, group.end) == Walk([c], None)
    requires c.payload <= c.end <= |data| && data[c.payload..c.end] == b.header + b.frame
    ensures BlockOf(data, group) == Success(b)
  {
    hide WalkChildren, Unlaced, SplitBlock;
    SplitPrinted(b);
    assert Slice(data, c.payload, c.end) == b.header + b.frame;
  }

  lemma BlockOfPrinted(data: bytes, group: Child, b: Block, printed: bytes)
    requires Unlaced(b) && EbmlElement(BLOCK, b.header + b.frame) == Success(printed)
    requires group.payload + |printed| == group.end <= |data| && data[group.payload..group.end] == printed
    ensures BlockOf(data, group) == Success(b)
  {
    hide EbmlElement, WalkChildren, Limit, Unlaced, BlockOf;
    var payload := b.header + b.frame;
    PrintedFits(BLOCK, payload);
    PrintableSmallId(BLOCK, payload);
    WalkPrinted(data, group.payload, group.end, Element(BLOCK, payload), printed);
    WalkNothing(data, group.end);
    BlockOfOnly(data, group, Child(BLOCK, group.payload, group.end - |payload|, group.end), b);
  }

  /** A printed group is walked as one BlockGroup in which the Block is found. */
  lemma WalkGroup(data: bytes, s: nat, end: nat, b: Block, p: bytes) returns (c: Child)
    requires Unlaced(b) && PrintGroup(b) == Success(p)
    requires s + |p| <= end <= |data| && data[s..s + |p|] == p
    ensures |p| >= 2 && c.id == BLOCK_GROUP && c.offset == s && c.end == s + |p|
    ensures BlockOf(data, c) == Success(b)
    ensures WalkChildren(data, s, end) == Prepend([c], WalkChildren(data, s + |p|, end))
  {
    hide EbmlElement, WalkChildren, Limit, Unlaced, BlockOf;
    var block := EbmlElement(BLOCK, b.header + b.frame).value;
    PrintedFits(BLOCK_GROUP, block);
    PrintableSmallId(BLOCK_GROUP, block);
    WalkPrinted(data, s, end, Element(BLOCK_GROUP, block), p);
    c := Child(BLOCK_GROUP, s, s + |p| - |block|, s + |p|);
    BlockOfPrinted(data, c, b, block);
  }

  lemma FourByteId(id: nat, payload: bytes)
    requires 0x1000_0000 <= id < 0x2000_0000 && |payload| < Limit(8)
    ensures Printable(Element(id, payload))
  {
    Limits();
    assert Marked(id, 4);
  }

  /** The one element of a parent. */
  lemma WalkOnly(data: bytes, s: nat, end: nat, id: nat, payload: bytes)
    requires 0x1000_0000 <= id < 0x2000_0000 && s <= end <= |data| && EbmlElement(id, payload) == Success(data[s..end])
    ensures s + |payload| + 2 <= end && data[end - |payload|..end] == payload
    ensures WalkChildren(data, s, end) == Walk([Child(id, s, end - |payload|, end)], None)
  {
    hide EbmlElement, ReadChild, Limit;
    PrintedFits(id, payload);
    FourByteId(id, payload);
    WalkPrinted(data, s, end, Element(id, payload), data[s..end]);
    assert WalkChildren(data, end, end) == Walk([], None);
  }

  /** The search finds both groups of a printed source. */
  lemma SourceIsReadable(data: bytes, first: Block, second: Block)
    requires Unlaced(first) && Unlaced(second) && PrintSource(first, second) == Success(data)
    ensures Readable(data) && FirstBlock(data) == first && SecondBlock(data) == second
    ensures Span(data) == |PrintGroup(first).value| + |PrintGroup(second).value|
  {
    hide EbmlElement, WalkChildren, PrintGroup, Unlaced, BlockOf;
    var a, b := PrintGroup(first).value, PrintGroup(second).value;
    var cluster := EbmlElement(CLUSTER, a + b).value;
    var n := |data|;
    assert data[0..n] == data;
    WalkOnly(data, 0, n, SEGMENT, cluster);
    WalkOnly(data, n - |cluster|, n, CLUSTER, a + b);
    var s := n - |a + b|;
    PartOf(data, s, a + b, 0, |a|);
    PartOf(data, s, a + b, |a|, |a| + |b|);
    assert (a + b)[0..|a|] == a && (a + b)[|a|..|a| + |b|] == b;
    var c := WalkGroup(data, s, n, first, a);
    var d := WalkGroup(data, s + |a|, n, second, b);
    WalkNothing(data, n);
    assert WalkChildren(data, s, n) == Walk([c, d], None);
    LocateFound(data, Child(SEGMENT, 0, n - |cluster|, n), Child(CLUSTER, n - |cluster|, s, n), c, d);
  }

  lemma WalkNothing(data: bytes, end: nat)
    ensures WalkChildren(data, end, end) == Walk([], None)
  {
  }

  lemma LocateFound(data: bytes, segment: Child, cluster: Child, a: Child, b: Child)
    requires segment.id == SEGMENT && cluster.id == CLUSTER && a.id == BLOCK_GROUP && b.id == BLOCK_GROUP
    requires WalkChildren(data, 0, |data|) == Walk([segment], None)
    requires WalkChildren(data, segment.payload, segment.end) == Walk([cluster], None)
    requires WalkChildren(data, cluster.payload, cluster.end) == Walk([a, b], None)
    ensures Locate(data) == Success(Target(segment, 0, cluster, 0, [a, b], 0, 1))
  {
    hide WalkChildren;
  }

  /** Track 1, timestamp 0, no flags. */
  const HEADER: bytes := [0x81, 0, 0, 0]

  lemma HeaderUnlaced(frame: bytes)
    ensures Unlaced(Block(HEADER, frame))
  {
    var payload := HEADER + frame;
    assert payload[0..1] == [0x81];
    OneByte(0x81);
    MarkedOneByte(0x81);
    hide ReadHeader;
    ReadMarked(payload, 0, 0x81, 1);
  }

  lemma PrintedGroupLength(frame: bytes)
    requires |frame| < 0x1000_0000
    ensures PrintGroup(Block(HEADER, frame)).Success?
    ensures |PrintGroup(Block(HEADER, frame)).value| == ElementLength(ElementLength(4 + |frame|))
  {
    hide EbmlElement, Limit;
    LimitEight();
    ElementLengthMeans(BLOCK, HEADER + frame);
    ElementLengthMeans(BLOCK_GROUP, EbmlElement(BLOCK, HEADER + frame).value);
  }

  lemma LongElement(id: nat, payload: bytes)
    requires |payload| < 0x1_0000_0000
    ensures EbmlElement(id, payload).Success?
    ensures |EbmlElement(id, payload).value| <= |EbmlId(id)| + 8 + |payload|
  {
    hide EbmlId, Vint, Limit;
    LimitEight();
    SizeWidthMeans(|payload|);
  }

  /** The longest first frame whose group has a size of four bytes, and one byte more. */
  const LONG := 0xFFF_FFF5

  function OneByteShort(): Result<bytes, Error> {
    PrintSource(Block(HEADER, Zeros(LONG)), Block(HEADER, Zeros(1)))
  }

  /**
   The smallest span that leaves a gap of one byte: the source is readable, its groups take 2^28 + 12 bytes and the
   script fails.
   */
  lemma GapOfOneByte()
    ensures OneByteShort().Success?
    ensures var data := OneByteShort().value;
            && Readable(data) && Span(data) == 0x1000_000C && Gap(data) == 1
            && K1(data) == Failure(ValueError)
  {
    hide PrintGroup, EbmlElement, K1, Locate, BlockOf, Zeros, Limit, Readable;
    var first, second := Block(HEADER, Zeros(LONG)), Block(HEADER, Zeros(1));
    HeaderUnlaced(first.frame);
    HeaderUnlaced(second.frame);
    PrintedGroupLength(first.frame);
    PrintedGroupLength(second.frame);
    var groups := PrintGroup(first).value + PrintGroup(second).value;
    LongElement(CLUSTER, groups);
    LongId(CLUSTER);
    LongElement(SEGMENT, EbmlElement(CLUSTER, groups).value);
    var data := OneByteShort().value;
    SourceIsReadable(data, first, second);
    assert Gap(data) == 1;
    LimitEight();
    K1SucceedsExactly(data);
  }

  lemma LongId(id: nat)
    requires 0x1000_0000 <= id < 0x2000_0000
    ensures |EbmlId(id)| == 4
  {
    Limits();
    IdShape(id, 4);
  }
}
