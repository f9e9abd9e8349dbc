/**
 The `k1` fixture: the first two BlockGroups of the first Cluster become one BlockGroup with an
 EBML-laced Block, padded with a Void element to the length of what it replaces.
 */
module EbmlK1 {
  import opened Bits
  import opened Bytes
  import opened Wrappers
  import opened EbmlVint
  import opened EbmlWalk
  import opened EbmlLacing

  const SEGMENT := 0x18538067
  const CLUSTER := 0x1F43B675
  const BLOCK_GROUP := 0xA0
  const BLOCK := 0xA1
  const VOID := 0xEC

  // ----- Finding the two groups

  /** The position of the first item with this ID at or after `from`. */
  function IndexOf(items: seq<Child>, id: nat, from: nat): (r: Option<nat>)
    ensures r.Some? ==> from <= r.value < |items| && items[r.value].id == id
    ensures forall k :: from <= k < (if r.Some? then r.value else |items|) ==> items[k].id != id
    decreases |items| - from
  {
    if from >= |items| then None
    else if items[from].id == id then Some(from)
    else IndexOf(items, id, from + 1)
  }

  /** `list(..)` of a generator. */
  function AsList(w: Walk): Result<seq<Child>, Error> {
    if w.error.Some? then Failure(w.error.value) else Success(w.items)
  }

  /** `next(item for item in .. if item[0] == id)`: an exception further on goes unnoticed. */
  function NextWithId(w: Walk, id: nat): (r: Result<nat, Error>)
    ensures r.Success? ==> r.value < |w.items| && w.items[r.value].id == id
    ensures forall k :: 0 <= k < (if r.Success? then r.value else |w.items|) ==> w.items[k].id != id
  {
    match IndexOf(w.items, id, 0)
    case Some(i) => Success(i)
    case None => Failure(if w.error.Some? then w.error.value else StopIteration)
  }

  /** Where the surgery happens; `children` are the Cluster's, `first` and `second` the two groups among them. */
  datatype Target = Target(segment: Child, segmentAt: nat, cluster: Child, clusterAt: nat,
                           children: seq<Child>, first: nat, second: nat)
  {
    function From(): nat
      requires first < |children|
    {
      children[first].offset
    }

    function To(): nat
      requires second < |children|
    {
      children[second].end
    }
  }

  function Locate(data: bytes): (r: Result<Target, Error>)
    ensures r.Success? ==> r.value.first < r.value.second < |r.value.children|
  {
    var top :- AsList(WalkChildren(data, 0, |data|));
    var segmentAt :- NextWithId(Walk(top, None), SEGMENT);
    var segment := top[segmentAt];
    var inSegment := WalkChildren(data, segment.payload, segment.end);
    var clusterAt :- NextWithId(inSegment, CLUSTER);
    var cluster := inSegment.items[clusterAt];
    var children :- AsList(WalkChildren(data, cluster.payload, cluster.end));
    match IndexOf(children, BLOCK_GROUP, 0)
    case None => Failure(ValueError)
    case Some(first) =>
      match IndexOf(children, BLOCK_GROUP, first + 1)
      case None => Failure(ValueError)
      case Some(second) => Success(Target(segment, segmentAt, cluster, clusterAt, children, first, second))
  }

  // ----- The new group

  /** A Block's bytes up to and including the flags, and the frame behind them. */
  datatype Block = Block(header: bytes, frame: bytes)

  ghost predicate Unlaced(b: Block) {
    && |b.header| >= 4
    && ReadHeader(b.header + b.frame, 0, false).Success?
    && |b.header| == ReadHeader(b.header + b.frame, 0, false).value.length + 3
    && And(b.header[|b.header| - 1], LACING_BITS) == 0
  }

  /** Takes a Block's payload apart. */
  function SplitBlock(payload: bytes): (r: Result<Block, Error>)
    ensures r.Success? ==> Unlaced(r.value) && r.value.header + r.value.frame == payload
  {
    var track :- ReadHeader(payload, 0, false);
    if |payload| < track.length + 3 || And(payload[track.length + 2], LACING_BITS) != 0 then Failure(ValueError)
    else
      var b := Block(payload[..track.length + 3], payload[track.length + 3..]);
      assert b.header + b.frame == payload;
      Success(b)
  }

  function BlockOf(data: bytes, group: Child): (r: Result<Block, Error>)
    ensures r.Success? ==> Unlaced(r.value)
  {
    var children :- AsList(WalkChildren(data, group.payload, group.end));
    var at :- NextWithId(Walk(children, None), BLOCK);
    SplitBlock(Slice(data, children[at].payload, children[at].end))
  }

  function LacedHeader(header: bytes): bytes
    requires |header| >= 1 && And(header[|header| - 1], LACING_BITS) == 0
  {
    SetLacingBits(header[|header| - 1]);
    header[|header| - 1 := Or(header[|header| - 1], LACING_BITS)]
  }

  function Lace(first: Block, second: Block): Result<bytes, Error>
    requires Unlaced(first)
  {
    var size :- Vint(|first.frame|);
    Success(LacedHeader(first.header) + [1] + size + first.frame + second.frame)
  }

  /** The laced Block as a printed element. */
  function BlockElement(first: Block, second: Block): Result<bytes, Error>
    requires Unlaced(first)
  {
    var lace :- Lace(first, second);
    EbmlElement(BLOCK, lace)
  }

  // ----- Padding

  /** The first size width from `from` on that lets a Void element fill exactly `gap` bytes. */
  function VoidWidth(gap: int, from: nat): (r: Option<nat>)
    ensures r.Some? ==> from <= r.value <= 8 && 0 <= gap - 1 - r.value < Limit(r.value)
    decreases 9 - from
  {
    if from > 8 then None
    else if 0 <= gap - 1 - from < Limit(from) then Some(from)
    else VoidWidth(gap, from + 1)
  }

  function VoidElement(payload: nat, width: nat): bytes
    requires 1 <= width <= 8 && payload < Limit(width)
  {
    [VOID] + VintWithLength(payload, width).value + Zeros(payload)
  }

  function Pad(replacement: bytes, length: int): Result<bytes, Error> {
    var gap := length - |replacement|;
    match VoidWidth(gap, 1)
    case Some(n) => Success(replacement + VoidElement(gap - 1 - n, n))
    case None => if gap == 0 then Success(replacement) else Failure(ValueError)
  }

  /** Everything the script computes before it writes: the new Block, the new group and the group with its padding. */
  datatype Surgery = Surgery(target: Target, first: Block, second: Block,
                             block: bytes, replacement: bytes, padded: bytes)

  function Prepare(data: bytes): (r: Result<Surgery, Error>)
    ensures r.Success? ==> Unlaced(r.value.first)
    ensures r.Success? ==> r.value.target.first < r.value.target.second < |r.value.target.children|
  {
    var t :- Locate(data);
    var first :- BlockOf(data, t.children[t.first]);
    var second :- BlockOf(data, t.children[t.second]);
    var block :- BlockElement(first, second);
    var replacement :- EbmlElement(BLOCK_GROUP, block);
    var padded :- Pad(replacement, t.To() - t.From());
    Success(Surgery(t, first, second, block, replacement, padded))
  }

  function K1(data: bytes): Result<bytes, Error> {
    var s :- Prepare(data);
    Success(Slice(data, 0, s.target.From()) + s.padded + Slice(data, s.target.To(), |data|))
  }

  // ----- The script

  method PadToLength(replacement: bytes, length: int) returns (r: Result<bytes, Error>)
    ensures r == Pad(replacement, length)
  {
    hide Pow2, VintWithLength, VoidElement;
    var padded := replacement;
    var gap := length - |replacement|;
    for sizeLen := 1 to 9
      invariant padded == replacement
      invariant VoidWidth(gap, 1) == VoidWidth(gap, sizeLen)
    {
      var payloadLen := gap - 1 - sizeLen;
      if payloadLen >= 0 && payloadLen < Shl(1, 7 * sizeLen) - 1 {
        VoidPrinted(replacement, payloadLen, sizeLen);
        var size := VintWithLength(payloadLen, sizeLen);
        padded := padded + [VOID] + size.value + Zeros(payloadLen);
        break;
      }
    }
    if |padded| != length {
      return Failure(ValueError);
    }
    return Success(padded);
  }

  lemma VoidPrinted(replacement: bytes, payload: nat, width: nat)
    requires 1 <= width <= 8 && payload < Limit(width)
    ensures var size := VintWithLength(payload, width);
            && size.Success?
            && replacement + [VOID] + size.value + Zeros(payload) == replacement + VoidElement(payload, width)
            && |VoidElement(payload, width)| == 1 + width + payload
  {
    hide Pow2, BigEndian, Or, Zeros;
  }

  lemma VoidFills(payload: nat, width: nat)
    requires 1 <= width <= 8 && payload < Limit(width)
    ensures |VoidElement(payload, width)| == 1 + width + payload
  {
  }

  method ReadBlock(data: bytes, group: Child) returns (r: Result<Block, Error>)
    ensures r == BlockOf(data, group)
  {
    var children, error := EbmlChildren(data, group.payload, group.end);
    if error.Some? {
      return Failure(error.value);
    }
    var at := NextWithId(Walk(children, None), BLOCK);
    if at.Failure? {
      return Failure(at.error);
    }
    hide ReadHeader, WalkChildren, And;
    var payload := Slice(data, children[at.value].payload, children[at.value].end);
    var track := ReadEbmlHeader(payload, 0, false);
    if track.Failure? {
      return Failure(track.error);
    }
    var n := track.value.length;
    if |payload| < n + 3 || And(payload[n + 2], 0x06) != 0 {
      return Failure(ValueError);
    }
    return Success(Block(payload[..n + 3], payload[n + 3..]));
  }

  /** The positions of the first two BlockGroups, or of fewer if there are fewer. */
  method FirstTwoGroups(children: seq<Child>) returns (groups: seq<nat>)
    ensures |groups| <= 2 && forall i :: 0 <= i < |groups| ==> groups[i] < |children|
    ensures |groups| == 0 ==> IndexOf(children, BLOCK_GROUP, 0) == None
    ensures |groups| >= 1 ==> IndexOf(children, BLOCK_GROUP, 0) == Some(groups[0])
    ensures |groups| == 1 ==> IndexOf(children, BLOCK_GROUP, groups[0] + 1) == None
    ensures |groups| == 2 ==> IndexOf(children, BLOCK_GROUP, groups[0] + 1) == Some(groups[1])
  {
    groups := [];
    var k := 0;
    while k < |children| && |groups| < 2
      invariant 0 <= k <= |children| && |groups| <= 2
      invariant forall i :: 0 <= i < |groups| ==> groups[i] < k && children[groups[i]].id == BLOCK_GROUP
      invariant |groups| == 0 ==> IndexOf(children, BLOCK_GROUP, 0) == IndexOf(children, BLOCK_GROUP, k)
      invariant |groups| >= 1 ==> IndexOf(children, BLOCK_GROUP, 0) == Some(groups[0])
      invariant |groups| == 1 ==> IndexOf(children, BLOCK_GROUP, groups[0] + 1) == IndexOf(children, BLOCK_GROUP, k)
      invariant |groups| == 2 ==> IndexOf(children, BLOCK_GROUP, groups[0] + 1) == Some(groups[1])
      decreases |children| - k
    {
      if children[k].id == BLOCK_GROUP {
        groups := groups + [k];
      }
      k := k + 1;
    }
  }

  method FindTarget(data: bytes) returns (r: Result<Target, Error>)
    ensures r == Locate(data)
  {
    hide WalkChildren;
    var top, error := EbmlChildren(data, 0, |data|);
    if error.Some? {
      return Failure(error.value);
    }
    var segmentAt :- NextWithId(Walk(top, None), SEGMENT);
    var segment := top[segmentAt];
    var inSegment, segmentError := EbmlChildren(data, segment.payload, segment.end);
    var clusterAt :- NextWithId(Walk(inSegment, segmentError), CLUSTER);
    var cluster := inSegment[clusterAt];
    var children, clusterError := EbmlChildren(data, cluster.payload, cluster.end);
    if clusterError.Some? {
      return Failure(clusterError.value);
    }
    var groups := FirstTwoGroups(children);
    if |groups| != 2 {
      return Failure(ValueError);
    }
    return Success(Target(segment, segmentAt, cluster, clusterAt, children, groups[0], groups[1]));
  }

  method MakeK1(data: bytes) returns (r: Result<bytes, Error>)
    ensures r == K1(data)
  {
    hide WalkChildren, BlockOf, Lace, EbmlElement, Pad, Locate, Slice;
    var t :- FindTarget(data);
    var groups := [t.first, t.second];
    var frames: seq<Block> := [];
    for g := 0 to 2
      invariant |frames| == g
      invariant forall i :: 0 <= i < g ==> BlockOf(data, t.children[groups[i]]) == Success(frames[i])
    {
      var block := ReadBlock(data, t.children[groups[g]]);
      if block.Failure? {
        assert g == 1 ==> BlockOf(data, t.children[groups[0]]) == Success(frames[0]);
        return Failure(block.error);
      }
      frames := frames + [block.value];
    }
    assert BlockOf(data, t.children[t.first]) == Success(frames[0]);
    assert BlockOf(data, t.children[t.second]) == Success(frames[1]);
    var lace :- Lace(frames[0], frames[1]);
    var block :- EbmlElement(BLOCK, lace);
    var replacement :- EbmlElement(BLOCK_GROUP, block);
    var padded :- PadToLength(replacement, t.To() - t.From());
    return Success(Slice(data, 0, t.From()) + padded + Slice(data, t.To(), |data|));
  }

  // ----- Padding is complete and exact

  lemma {:induction false} NoWidth(gap: int, from: nat)
    requires 1 <= from <= 9 && gap < from + 1
    ensures VoidWidth(gap, from).None?
    decreases 9 - from
  {
    if from <= 8 {
      NoWidth(gap, from + 1);
    }
  }

  /** From width `from` on, the search succeeds exactly for the gaps between its smallest and the eight-byte limit. */
  lemma {:induction false} WidthExists(gap: int, from: nat)
    requires 1 <= from <= 8
    ensures from + 1 <= gap <= Pow2(56) + 7 ==> VoidWidth(gap, from).Some?
    ensures gap < from + 1 || gap > Pow2(56) + 7 ==> VoidWidth(gap, from).None?
    decreases 9 - from
  {
    hide Pow2;
    Pow2Monotone(7 * from, 56);
    Pow2Values();
    Pow2Monotone(7, 7 * from);
    if gap < from + 1 {
      NoWidth(gap, from);
    } else if from < 8 {
      WidthExists(gap, from + 1);
    }
  }

  lemma {:induction false} WidthIsMinimal(gap: int, from: nat, m: nat)
    requires 1 <= from <= m <= 8 && 0 <= gap - 1 - m < Limit(m)
    ensures VoidWidth(gap, from).Some? && VoidWidth(gap, from).value <= m
    decreases m - from
  {
    if from < m {
      WidthIsMinimal(gap, from + 1, m);
    }
  }

  /**
   Padding succeeds exactly when nothing is missing or when between 2 and 2^56 + 7 bytes are; it then
   has the wanted length, starts with the replacement and uses the smallest size width that works.
   */
  lemma PaddingIsExact(replacement: bytes, length: int)
    ensures var gap := length - |replacement|;
            Pad(replacement, length).Success? <==> gap == 0 || 2 <= gap <= Pow2(56) + 7
    ensures Pad(replacement, length).Success? ==>
              && |Pad(replacement, length).value| == length
              && replacement <= Pad(replacement, length).value
  {
    hide Pow2, VoidWidth, VoidElement;
    var gap := length - |replacement|;
    WidthExists(gap, 1);
    PadShape(replacement, length);
  }

  /** What padding appends. */
  lemma PadShape(replacement: bytes, length: int)
    ensures Pad(replacement, length).Success? ==>
              var gap, padded := length - |replacement|, Pad(replacement, length).value;
              match VoidWidth(gap, 1)
              case None => gap == 0 && padded == replacement
              case Some(n) =>
                && padded == replacement + VoidElement(gap - 1 - n, n)
                && |VoidElement(gap - 1 - n, n)| == gap
  {
    hide Pow2, VoidElement;
    var gap := length - |replacement|;
    if VoidWidth(gap, 1).Some? {
      var n := VoidWidth(gap, 1).value;
      VoidFills(gap - 1 - n, n);
    }
  }

  // ----- The surgery preserves the file

  lemma LocateMeans(data: bytes)
    ensures Locate(data).Success? ==>
              && var t := Locate(data).value;
            && var top := WalkChildren(data, 0, |data|);
            && var inSegment := WalkChildren(data, t.segment.payload, t.segment.end);
            && t.segmentAt < |top.items| && top.items[t.segmentAt] == t.segment && top.error.None?
            && t.clusterAt < |inSegment.items| && inSegment.items[t.clusterAt] == t.cluster
            && WalkChildren(data, t.cluster.payload, t.cluster.end) == Walk(t.children, None)
            && t.segment.id == 0x18538067 && (forall k :: 0 <= k < t.segmentAt ==> top.items[k].id != 0x18538067)
            && t.cluster.id == 0x1F43B675 && (forall k :: 0 <= k < t.clusterAt ==> inSegment.items[k].id != 0x1F43B675)
            && t.children[t.first].id == 0xA0 && t.children[t.second].id == 0xA0
            && (forall k :: 0 <= k < t.second && k != t.first ==> t.children[k].id != 0xA0)
            && t.cluster.payload <= t.From() <= t.To() <= t.cluster.end
            && t.segment.payload <= t.cluster.payload && t.cluster.end <= t.segment.end <= |data|
  {
    hide ReadChild;
    if Locate(data).Success? {
      var t := Locate(data).value;
      WalkIsContiguous(data, 0, |data|);
      WalkIsContiguous(data, t.segment.payload, t.segment.end);
      WalkIsContiguous(data, t.cluster.payload, t.cluster.end);
      LaterStartsAfter(t.children, t.cluster.payload, t.cluster.end, t.first, t.second);
    }
  }

  /** The Block read is the group's first, taken apart behind its track number, timestamp and flags, and unlaced. */
  lemma BlockIsFirst(data: bytes, group: Child)
    ensures BlockOf(data, group).Success? ==>
              && var w, b := WalkChildren(data, group.payload, group.end), BlockOf(data, group).value;
              && w.error.None?
              && (exists at: nat :: at < |w.items| && w.items[at].id == 0xA1
                    && Slice(data, w.items[at].payload, w.items[at].end) == b.header + b.frame
                    && forall k :: 0 <= k < at ==> w.items[k].id != 0xA1)
              && |b.header| >= 4
              && And(b.header[|b.header| - 1], 6) == 0
  {
    hide WalkChildren, SplitBlock, And;
    if BlockOf(data, group).Success? {
      var w := WalkChildren(data, group.payload, group.end);
      var at := NextWithId(Walk(w.items, None), BLOCK).value;
      assert at < |w.items| && w.items[at].id == 0xA1;
    }
  }

  /** The new file is the old one with the padded replacement instead of the span of the two groups. */
  lemma K1Means(data: bytes)
    ensures K1(data).Success? ==>
              && Prepare(data).Success?
              && (var s, out := Prepare(data).value, K1(data).value;
                  && Locate(data) == Success(s.target)
                  && BlockElement(s.first, s.second) == Success(s.block)
                  && EbmlElement(BLOCK_GROUP, s.block) == Success(s.replacement)
                  && Pad(s.replacement, s.target.To() - s.target.From()) == Success(s.padded)
                  && s.target.From() <= s.target.To() <= |data| == |out|
                  && out[..s.target.From()] == data[..s.target.From()] && out[s.target.To()..] == data[s.target.To()..]
                  && out[s.target.From()..s.target.To()] == s.padded)
  {
    hide WalkChildren, BlockOf, BlockElement, EbmlElement, Pad, Locate, Pow2, Slice;
    if K1(data).Success? {
      LocateMeans(data);
      var s := Prepare(data).value;
      PaddingIsExact(s.replacement, s.target.To() - s.target.From());
      Spliced(data, s.target.From(), s.target.To(), s.padded);
    }
  }

  lemma Spliced(data: bytes, from: nat, to: nat, middle: bytes)
    requires from <= to <= |data| && |middle| == to - from
    ensures var out := Slice(data, 0, from) + middle + Slice(data, to, |data|);
            && |out| == |data|
            && out[..from] == data[..from] && out[from..to] == middle && out[to..] == data[to..]
  {
  }

  /**
   Output and input agree in length, outside the replaced span, and in their top-level and Segment walks. The span lies
   in the first Cluster of the first Segment, so every other Cluster is as it was.
   */
  lemma K1PreservesTheFile(data: bytes)
    ensures K1(data).Success? ==>
              && Locate(data).Success?
              && (var t, out := Locate(data).value, K1(data).value;
                  && |out| == |data|
                  && t.From() <= t.To() <= |data|
                  && out[..t.From()] == data[..t.From()] && out[t.To()..] == data[t.To()..]
                  && (var top := WalkChildren(data, 0, |data|).items;
                      && t.segmentAt < |top| && top[t.segmentAt] == t.segment && t.segment.id == 0x18538067
                      && forall k :: 0 <= k < t.segmentAt ==> top[k].id != 0x18538067)
                  && (var inSegment := WalkChildren(data, t.segment.payload, t.segment.end).items;
                      && t.clusterAt < |inSegment| && inSegment[t.clusterAt] == t.cluster && t.cluster.id == 0x1F43B675
                      && t.cluster.payload <= t.From() && t.To() <= t.cluster.end <= t.segment.end <= |data|
                      && forall k :: 0 <= k < t.clusterAt ==> inSegment[k].id != 0x1F43B675)
                  && WalkChildren(out, 0, |out|) == WalkChildren(data, 0, |data|)
                  && WalkChildren(out, t.segment.payload, t.segment.end)
                     == WalkChildren(data, t.segment.payload, t.segment.end))
  {
    hide WalkChildren, K1, Locate, Prepare, Pad, BlockElement, EbmlElement;
    if K1(data).Success? {
      K1Means(data);
      LocateMeans(data);
      var t, out := Locate(data).value, K1(data).value;
      WalkIgnoresPayload(data, out, 0, |data|, t.segmentAt, t.From(), t.To());
      WalkIgnoresPayload(data, out, t.segment.payload, t.segment.end, t.clusterAt, t.From(), t.To());
    }
  }

  // ----- The new Cluster

  /** The elements that stand where the old span stood: the new group and, if there is a gap, one Void. */
  function NewChildren(from: nat, to: nat, replacement: bytes, inner: nat): seq<Child>
    requires inner <= |replacement| && from + |replacement| <= to
  {
    var mid := from + |replacement|;
    [Child(BLOCK_GROUP, from, mid - inner, mid)]
    + match VoidWidth(to - mid, 1)
      case None => []
      case Some(n) => [Child(VOID, mid, mid + 1 + n, to)]
  }

  lemma MarkedOneByte(id: nat)
    requires 128 <= id < 256
    ensures Marked(id, 1)
  {
    assert Pow2(7) == 128;
  }

  /** A Void element that ends at `to` is walked as one element. */
  lemma WalkVoid(data: bytes, s: nat, to: nat, end: nat, n: nat)
    requires 1 <= n <= 8 && s + 1 + n <= to <= end <= |data| && to - s - 1 - n < Limit(n)
    requires data[s..to] == VoidElement(to - s - 1 - n, n)
    ensures WalkChildren(data, s, end) == Prepend([Child(VOID, s, s + 1 + n, to)], WalkChildren(data, to, end))
  {
    hide WalkChildren, ReadChild, Pow2, BigEndian;
    var size := to - s - 1 - n;
    var p := VoidElement(size, n);
    VintShape(size, n);
    PartOf(data, s, p, 0, 1);
    PartOf(data, s, p, 1, 1 + n);
    assert p[0..1] == [VOID] && p[1..1 + n] == VintWithLength(size, n).value;
    MarkedOneByte(VOID);
    OneByte(VOID);
    ReadPrinted(data, s, end, VOID, 1, size, n);
  }

  lemma OneByte(x: byte)
    ensures BigEndian(x, 1) == [x]
  {
    assert BigEndian(x / 256, 0) == [];
  }

  lemma PrintableSmallId(id: nat, payload: bytes)
    requires 128 <= id < 256 && |payload| < Limit(8)
    ensures Printable(Element(id, payload))
  {
    MarkedOneByte(id);
  }

  /** The span of the padded replacement is walked as the new group and the Void, and then on from its end. */
  lemma WalkSpan(data: bytes, from: nat, to: nat, end: nat, inner: bytes)
    requires |inner| < Limit(8) && EbmlElement(BLOCK_GROUP, inner).Success?
    requires var replacement := EbmlElement(BLOCK_GROUP, inner).value;
             && from <= to <= end <= |data| && Pad(replacement, to - from) == Success(data[from..to])
    ensures var replacement := EbmlElement(BLOCK_GROUP, inner).value;
            && |inner| + 2 <= |replacement| && from + |replacement| <= to
            && data[from + |replacement| - |inner|..from + |replacement|] == inner
            && WalkChildren(data, from, end)
               == Prepend(NewChildren(from, to, replacement, |inner|), WalkChildren(data, to, end))
  {
    hide WalkChildren, EbmlElement, VoidElement, Limit, Pad, VoidWidth, Prepend, Pow2, ReadHeader;
    var replacement := EbmlElement(BLOCK_GROUP, inner).value;
    PadLayout(data, from, to, replacement);
    var mid := from + |replacement|;
    PrintableSmallId(BLOCK_GROUP, inner);
    WalkPrinted(data, from, end, Element(BLOCK_GROUP, inner), replacement);
    match VoidWidth(to - mid, 1)
    case None =>
      assert NewChildren(from, to, replacement, |inner|) == [Child(BLOCK_GROUP, from, mid - |inner|, mid)];
    case Some(n) =>
      WalkVoid(data, mid, to, end, n);
      PrependTwice([Child(BLOCK_GROUP, from, mid - |inner|, mid)], [Child(VOID, mid, mid + 1 + n, to)],
                   WalkChildren(data, to, end));
  }

  lemma PrependTwice(a: seq<Child>, b: seq<Child>, w: Walk)
    ensures Prepend(a, Prepend(b, w)) == Prepend(a + b, w)
  {
  }

  lemma PadLayout(data: bytes, from: nat, to: nat, replacement: bytes)
    requires from <= to <= |data| && Pad(replacement, to - from) == Success(data[from..to])
    ensures var mid := from + |replacement|;
            && mid <= to && data[from..mid] == replacement
            && match VoidWidth(to - mid, 1)
               case None => mid == to
               case Some(n) => data[mid..to] == VoidElement(to - mid - 1 - n, n)
  {
    hide VoidElement, VoidWidth, Pad, Limit;
    var padded := data[from..to];
    PadShape(replacement, to - from);
    PartOf(data, from, padded, 0, |replacement|);
    PartOf(data, from, padded, |replacement|, to - from);
    assert padded[0..|replacement|] == replacement;
    match VoidWidth(to - from - |replacement|, 1)
    case None =>
    case Some(n) => assert padded[|replacement|..to - from] == VoidElement(to - from - |replacement| - 1 - n, n);
  }

  /** Whatever is printed as an element fits eight size bytes. */
  lemma PrintedFits(id: nat, payload: bytes)
    requires EbmlElement(id, payload).Success?
    ensures |payload| < Limit(8)
  {
    hide Limit;
    VintIsMinimal(|payload|);
  }

  /**
   The Cluster of the new file walks as the old children before the span, the new group, at most one
   Void, and the old children after the span.
   */
  lemma K1ClusterWalk(data: bytes)
    ensures K1(data).Success? ==>
              && Prepare(data).Success?
              && (var s, out := Prepare(data).value, K1(data).value;
                  var t := s.target;
                  && |s.block| <= |s.replacement| && t.From() + |s.replacement| <= t.To()
                  && WalkChildren(out, t.cluster.payload, t.cluster.end)
                     == Walk(t.children[..t.first]
                             + NewChildren(t.From(), t.To(), s.replacement, |s.block|)
                             + t.children[t.second + 1..], None)
                  && |NewChildren(t.From(), t.To(), s.replacement, |s.block|)| <= 2)
  {
    hide WalkChildren, K1, Locate, Prepare, Pad, EbmlElement, BlockElement, VoidWidth;
    if K1(data).Success? {
      K1Means(data);
      LocateMeans(data);
      var s, out := Prepare(data).value, K1(data).value;
      var t := s.target;
      var start, end := t.cluster.payload, t.cluster.end;
      PrintedFits(BLOCK_GROUP, s.block);
      WalkSamePrefix(data, out, t.From(), start, end, t.first);
      WalkSpan(out, t.From(), t.To(), end, s.block);
      WalkSplitsAfter(data, start, end, t.second);
      WalkSameSuffix(data, out, t.To(), t.To(), end);
      AfterSplit(t.children, t.second, WalkChildren(data, t.To(), end));
      Assemble(t.children, t.first, t.second, NewChildren(t.From(), t.To(), s.replacement, |s.block|),
               WalkChildren(out, t.To(), end));
    }
  }

  lemma AfterSplit(items: seq<Child>, i: nat, rest: Walk)
    requires i < |items| && Walk(items, None) == Prepend(items[..i + 1], rest)
    ensures rest == Walk(items[i + 1..], None)
  {
    assert items == items[..i + 1] + rest.items;
    assert items[i + 1..] == rest.items;
  }

  lemma Assemble(items: seq<Child>, first: nat, second: nat, added: seq<Child>, rest: Walk)
    requires first < second < |items| && rest == Walk(items[second + 1..], None)
    ensures Prepend(items[..first], Prepend(added, rest)) == Walk(items[..first] + added + items[second + 1..], None)
  {
  }

  /** Every old child of the Cluster other than the two groups is among these items. */
  ghost predicate KeepsOthers(t: Target, items: seq<Child>) {
    forall k :: 0 <= k < |t.children| && k != t.first && k != t.second ==> t.children[k] in items
  }

  /** The new Cluster keeps every old child other than the two groups exactly if the second group follows the first. */
  lemma K1LosesNothingExactly(data: bytes)
    ensures K1(data).Success? ==>
              && Prepare(data).Success?
              && var t := Prepare(data).value.target;
                 var w := WalkChildren(K1(data).value, t.cluster.payload, t.cluster.end);
                 KeepsOthers(t, w.items) <==> t.second == t.first + 1
  {
    hide WalkChildren, K1, Locate, Prepare, VoidWidth, Contiguous;
    if K1(data).Success? {
      K1Means(data);
      LocateMeans(data);
      K1ClusterWalk(data);
      var s := Prepare(data).value;
      var t := s.target;
      WalkIsContiguous(data, t.cluster.payload, t.cluster.end);
      var added := NewChildren(t.From(), t.To(), s.replacement, |s.block|);
      if t.second == t.first + 1 {
        OthersKept(t, added);
      } else {
        BetweenIsLost(t, t.cluster.payload, t.cluster.end, s.replacement, |s.block|);
      }
    }
  }

  lemma OthersKept(t: Target, added: seq<Child>)
    requires t.first < |t.children| && t.second == t.first + 1 < |t.children|
    ensures KeepsOthers(t, t.children[..t.first] + added + t.children[t.second + 1..])
  {
    var items := t.children[..t.first] + added + t.children[t.second + 1..];
    forall k | 0 <= k < |t.children| && k != t.first && k != t.second
      ensures t.children[k] in items
    {
      if k < t.first {
        assert items[k] == t.children[k];
      } else {
        assert items[t.first + |added| + (k - t.second - 1)] == t.children[k];
      }
    }
  }

  /** The child behind the first group, if it is not the second, is nowhere in the new Cluster. */
  lemma BetweenIsLost(t: Target, start: nat, end: nat, replacement: bytes, inner: nat)
    requires t.first + 1 < t.second < |t.children| && Contiguous(t.children, start, end)
    requires inner <= |replacement| && t.From() + |replacement| <= t.To()
    ensures var items := t.children[..t.first] + NewChildren(t.From(), t.To(), replacement, inner)
                         + t.children[t.second + 1..];
            !KeepsOthers(t, items)
  {
    hide VoidWidth;
    var lost := t.children[t.first + 1];
    LaterStartsAfter(t.children, start, end, t.first, t.first + 1);
    LaterStartsAfter(t.children, start, end, t.first + 1, t.second);
    forall k | 0 <= k < |t.children| && (k < t.first || k > t.second)
      ensures t.children[k] != lost
    {
      if k < t.first {
        LaterStartsAfter(t.children, start, end, k, t.first);
      } else {
        LaterStartsAfter(t.children, start, end, t.second, k);
      }
    }
    var added := NewChildren(t.From(), t.To(), replacement, inner);
    assert forall c :: c in added ==> c != lost;
  }

  // ----- The laced Block gives the two frames back

  lemma LaceShape(first: Block, second: Block)
    requires Unlaced(first) && Lace(first, second).Success?
    ensures Vint(|first.frame|).Success?
    ensures var lace, size, h := Lace(first, second).value, Vint(|first.frame|).value, |first.header|;
            && |lace| == h + 1 + |size| + |first.frame| + |second.frame|
            && lace[..h] == LacedHeader(first.header)
            && lace[h] == 1
            && lace[h + 1..h + 1 + |size|] == size
            && lace[h + 1 + |size|..h + 1 + |size| + |first.frame|] == first.frame
            && lace[h + 1 + |size| + |first.frame|..] == second.frame
  {
    hide Vint;
  }

  /** Only the lacing bits of the flags differ; track number and timestamp are the first Block's. */
  lemma HeaderKept(b: Block, lace: bytes)
    requires Unlaced(b) && |lace| >= |b.header| && lace[..|b.header|] == LacedHeader(b.header)
    ensures var last := |b.header| - 1;
            && lace[..last] == b.header[..last]
            && And(lace[last], LACING_BITS) == LACING_BITS
            && And(lace[last], 0xF9) == And(b.header[last], 0xF9)
    ensures ReadHeader(lace, 0, false).Success?
         && ReadHeader(lace, 0, false).value.length + 3 == |b.header|
  {
    hide ReadHeader, And, Or;
    var last := |b.header| - 1;
    SetLacingBits(b.header[last]);
    var payload := b.header + b.frame;
    var n := ReadHeader(payload, 0, false).value.length;
    assert lace[last] == lace[..last + 1][last];
    assert lace[..last] == lace[..last + 1][..last];
    assert lace[0..n] == payload[0..n];
    TrackKept(payload, lace, n);
  }

  lemma TrackKept(payload: bytes, lace: bytes, n: nat)
    requires ReadHeader(payload, 0, false).Success? && ReadHeader(payload, 0, false).value.length == n
    requires n <= |lace| && lace[0..n] == payload[0..n]
    ensures ReadHeader(lace, 0, false) == ReadHeader(payload, 0, false)
  {
    hide Pow2, MarkerPosition, FromBigEndian;
    assert lace[0] == lace[0..n][0] && payload[0] == payload[0..n][0];
  }

  lemma TwoFrames(payload: bytes, offset: nat, a: bytes, b: bytes)
    requires offset + |a| <= |payload| && payload[offset..offset + |a|] == a && payload[offset + |a|..] == b
    ensures CutFrames(payload, offset, [|a|]) == Success([a, b])
  {
    var sizes := [|a|];
    assert sizes[1..] == [];
    assert CutFrames(payload, offset + |a|, sizes[1..]) == Success([b]);
    assert CutFrames(payload, offset, sizes) == Success([a] + [b]);
    assert [a] + [b] == [a, b];
  }

  lemma OneSize(payload: bytes, offset: nat, size: nat, n: nat)
    requires ReadHeader(payload, offset, true) == Success(Header(size, n))
    ensures LacedSizes(payload, offset, 2) == Success(([size], offset + n))
  {
    hide ReadHeader;
    assert SizeDifferences(payload, offset + n, size, 0) == Success(([], offset + n));
    assert [size] + [] == [size];
  }

  /** De-lacing the built Block returns exactly the two original frames. */
  lemma LacingRoundTrip(first: Block, second: Block)
    requires Unlaced(first) && Lace(first, second).Success?
    ensures Delace(Lace(first, second).value)
         == Success(Laced(LacedHeader(first.header), [first.frame, second.frame]))
    ensures var last := |first.header| - 1;
            && LacedHeader(first.header)[..last] == first.header[..last]
            && And(LacedHeader(first.header)[last], 0xF9) == And(first.header[last], 0xF9)
  {
    hide ReadHeader, Vint, Lace, And, Delace, LacedHeader;
    LaceShape(first, second);
    var lace := Lace(first, second).value;
    HeaderKept(first, lace);
    DelaceParts(lace, |first.header|, Vint(|first.frame|).value, first.frame, second.frame);
    LacedHeaderKept(first.header);
  }

  lemma DelaceParts(lace: bytes, h: nat, size: bytes, a: bytes, b: bytes)
    requires Vint(|a|) == Success(size) && 4 <= h && |lace| == h + 1 + |size| + |a| + |b|
    requires ReadHeader(lace, 0, false).Success? && ReadHeader(lace, 0, false).value.length + 3 == h
    requires And(lace[h - 1], LACING_BITS) == LACING_BITS && lace[h] == 1
    requires lace[h + 1..h + 1 + |size|] == size && lace[h + 1 + |size|..h + 1 + |size| + |a|] == a
    requires lace[h + 1 + |size| + |a|..] == b
    ensures Delace(lace) == Success(Laced(lace[..h], [a, b]))
  {
    hide ReadHeader, Vint, CutFrames, LacedSizes, And, Delace, VintWithLength;
    VintIsMinimal(|a|);
    VintRoundTrip(lace, h + 1, |a|, |size|);
    OneSize(lace, h + 1, |a|, |size|);
    TwoFrames(lace, h + 1 + |size|, a, b);
    DelaceStep(lace, h, |a|, h + 1 + |size|, [a, b]);
  }

  /** Only the lacing bits of the flags are set. */
  lemma LacedHeaderKept(header: bytes)
    requires |header| >= 1 && And(header[|header| - 1], LACING_BITS) == 0
    ensures var last := |header| - 1;
            && |LacedHeader(header)| == |header| && LacedHeader(header)[..last] == header[..last]
            && And(LacedHeader(header)[last], 0xF9) == And(header[last], 0xF9)
  {
    hide And, Or;
    SetLacingBits(header[|header| - 1]);
  }

  /** De-lacing two frames, step by step. */
  lemma DelaceStep(lace: bytes, h: nat, size: nat, start: nat, frames: seq<bytes>)
    requires 4 <= h < |lace| && lace[h] == 1 && And(lace[h - 1], LACING_BITS) == LACING_BITS
    requires ReadHeader(lace, 0, false).Success? && ReadHeader(lace, 0, false).value.length + 3 == h
    requires LacedSizes(lace, h + 1, 2) == Success(([size], start))
    requires CutFrames(lace, start, [size]) == Success(frames)
    ensures Delace(lace) == Success(Laced(lace[..h], frames))
  {
    hide ReadHeader, CutFrames, LacedSizes, And;
  }

  /** The elements between `start` and `end` are one laced Block with this header and these frames. */
  ghost predicate IsLacedBlock(data: bytes, start: nat, end: nat, header: bytes, frames: seq<bytes>) {
    var w := WalkChildren(data, start, end);
    && w.error.None? && |w.items| == 1 && w.items[0].id == BLOCK
    && w.items[0].payload <= w.items[0].end == end <= |data|
    && Delace(data[w.items[0].payload..end]) == Success(Laced(header, frames))
  }

  lemma OneBlock(data: bytes, start: nat, end: nat, block: bytes, lace: bytes, laced: Laced)
    requires |lace| < Limit(8) && EbmlElement(BLOCK, lace) == Success(block)
    requires start + |block| == end <= |data| && data[start..end] == block
    requires Delace(lace) == Success(laced)
    ensures IsLacedBlock(data, start, end, laced.header, laced.frames)
  {
    hide EbmlElement, ReadChild, Delace, Limit;
    PrintableSmallId(BLOCK, lace);
    WalkPrinted(data, start, end, Element(BLOCK, lace), block);
    var c := Child(BLOCK, start, end - |lace|, end);
    assert WalkChildren(data, end, end) == Walk([], None);
    assert WalkChildren(data, start, end) == Walk([c], None);
  }

  /**
   In the new file the new group holds one Block, and de-lacing it returns the frames of the two old
   Blocks behind the first one's header.
   */
  lemma K1KeepsTheFrames(data: bytes)
    ensures K1(data).Success? ==>
              && Prepare(data).Success?
              && (var s, out := Prepare(data).value, K1(data).value;
                  var groupEnd := s.target.From() + |s.replacement|;
                  && |s.block| <= groupEnd
                  && IsLacedBlock(out, groupEnd - |s.block|, groupEnd, LacedHeader(s.first.header),
                      [s.first.frame, s.second.frame]))
  {
    hide WalkChildren, K1, Locate, Prepare, Pad, EbmlElement, Lace, IsLacedBlock, Delace, LacedHeader, Limit;
    if K1(data).Success? {
      K1Means(data);
      LocateMeans(data);
      var s, out := Prepare(data).value, K1(data).value;
      var t := s.target;
      var lace := Lace(s.first, s.second).value;
      PrintedFits(BLOCK_GROUP, s.block);
      PrintedFits(BLOCK, lace);
      WalkSpan(out, t.From(), t.To(), t.cluster.end, s.block);
      LacingRoundTrip(s.first, s.second);
      var groupEnd := t.From() + |s.replacement|;
      OneBlock(out, groupEnd - |s.block|, groupEnd, s.block, lace,
               Laced(LacedHeader(s.first.header), [s.first.frame, s.second.frame]));
    }
  }
}
