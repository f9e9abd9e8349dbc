/** ISO BMFF boxes (section 4.2 of ISO/IEC 14496-12): reading one box and walking a region of siblings. */
module IsoBoxes {
  import opened Bits
  import opened Bytes
  import opened Wrappers

  /** The Python exceptions of the box code. */
  datatype Error = ValueError | OverflowError | StopIteration | StructError

  /** The first box of a region: its kind, how long its header is and how long all of it is. */
  datatype Head = Head(kind: bytes, header: nat, size: nat)

  /** The 32-bit size field: 0 means "to the end of the region", 1 means "a 64-bit size follows". */
  function SizeField(region: bytes): (n: nat)
    requires |region| >= 4
    ensures n < 0x1_0000_0000
  {
    FromBigEndianBound(region[..4]);
    Pow2Of32();
    FromBigEndian(region[..4])
  }

  lemma Pow2Of32()
    ensures Pow2(32) == 0x1_0000_0000
  {
    Pow2Values();
    Pow2Add(16, 16);
  }

  function FirstBox(region: bytes): (r: Result<Head, Error>)
    requires |region| >= 8
    ensures r.Success? ==> 8 <= r.value.header <= r.value.size <= |region| && |r.value.kind| == 4
    ensures r.Success? && SizeField(region) != 1 ==> r.value.header == 8
  {
    var field := SizeField(region);
    var header := if field == 1 then 16 else 8;
    var size := if field == 1 then FromBigEndian(Slice(region, 8, 16)) else if field == 0 then |region| else field;
    if size < header || size > |region| then Failure(ValueError)
    else Success(Head(region[4..8], header, size))
  }

  datatype Box = Box(kind: bytes, offset: nat, payload: nat, end: nat)

  /** What the generator yields, and the exception it ends with, if any. */
  datatype BoxWalk = BoxWalk(items: seq<Box>, error: Option<Error>)

  function Prepend(items: seq<Box>, w: BoxWalk): BoxWalk {
    BoxWalk(items + w.items, w.error)
  }

  /** Fewer than eight bytes at the end are silently ignored. */
  function WalkBoxes(data: bytes, start: nat, end: nat): BoxWalk
    requires end <= |data|
    decreases end - start
  {
    if start + 8 > end then BoxWalk([], None)
    else
      match FirstBox(data[start..end])
      case Failure(e) => BoxWalk([], Some(e))
      case Success(h) =>
        Prepend([Box(h.kind, start, start + h.header, start + h.size)], WalkBoxes(data, start + h.size, end))
  }

  lemma WalkOneBox(data: bytes, items: seq<Box>, start: nat, end: nat)
    requires start + 8 <= end <= |data|
    ensures Prepend(items, WalkBoxes(data, start, end))
         == match FirstBox(data[start..end])
            case Failure(e) => BoxWalk(items, Some(e))
            case Success(h) => Prepend(items + [Box(h.kind, start, start + h.header, start + h.size)],
                                       WalkBoxes(data, start + h.size, end))
  {
    hide FirstBox;
    var r := FirstBox(data[start..end]);
    if r.Success? {
      var box := Box(r.value.kind, start, start + r.value.header, start + r.value.size);
      var rest := WalkBoxes(data, start + r.value.size, end);
      assert items + ([box] + rest.items) == (items + [box]) + rest.items;
    }
  }

  /**
   The box at `offset` as the generator's loop reads it. The 64-bit size is taken from `data`, not from
   the region, so it may come from beyond `end`; the box is rejected then in any case.
   */
  method ReadBoxAt(data: bytes, offset: nat, end: nat) returns (r: Result<Head, Error>)
    requires offset + 8 <= end <= |data|
    ensures r == FirstBox(data[offset..end])
  {
    var region := data[offset..end];
    var size := FromBigEndian(Slice(data, offset, offset + 4));
    PartOf(data, offset, region, 0, 4);
    PartOf(data, offset, region, 4, 8);
    var header := 8;
    if size == 1 {
      size := FromBigEndian(Slice(data, offset + 8, offset + 16));
      header := 16;
      if offset + 16 <= end {
        PartOf(data, offset, region, 8, 16);
      }
    } else if size == 0 {
      size := end - offset;
    }
    if size < header || offset + size > end {
      return Failure(ValueError);
    }
    return Success(Head(Slice(data, offset + 4, offset + 8), header, size));
  }

  method Mp4Boxes(data: bytes, start: nat, end: nat) returns (items: seq<Box>, error: Option<Error>)
    requires end <= |data|
    ensures BoxWalk(items, error) == WalkBoxes(data, start, end)
  {
    hide FirstBox, SizeField, Prepend;
    items := [];
    PrependNothing(WalkBoxes(data, start, end));
    var offset := start;
    while offset + 8 <= end
      invariant WalkBoxes(data, start, end) == Prepend(items, WalkBoxes(data, offset, end))
      decreases end - offset
    {
      WalkOneBox(data, items, offset, end);
      var head := ReadBoxAt(data, offset, end);
      if head.Failure? {
        return items, Some(head.error);
      }
      items := items + [Box(head.value.kind, offset, offset + head.value.header, offset + head.value.size)];
      offset := offset + head.value.size;
    }
    NothingPrepended(items);
    return items, None;
  }

  lemma PrependNothing(w: BoxWalk)
    ensures Prepend([], w) == w
  {
  }

  lemma NothingPrepended(items: seq<Box>)
    ensures Prepend(items, BoxWalk([], None)) == BoxWalk(items, None)
  {
  }

  // ----- Boxes that carry their own size

  /** A byte string that is one box and says so without reference to what follows it. */
  ghost predicate SelfDelimited(box: bytes) {
    && |box| >= 8 && SizeField(box) != 0
    && FirstBox(box).Success? && FirstBox(box).value.size == |box|
  }

  /** The header of a self-delimited box reads the same whatever follows it. */
  lemma FirstOfConcat(box: bytes, rest: bytes)
    requires SelfDelimited(box)
    ensures FirstBox(box + rest) == FirstBox(box) && SizeField(box + rest) == SizeField(box)
  {
    hide FromBigEndian;
    var all := box + rest;
    assert all[..4] == box[..4] && all[4..8] == box[4..8];
    if SizeField(box) == 1 {
      if |box| >= 16 {
        assert Slice(all, 8, 16) == Slice(box, 8, 16);
      }
    }
  }

  /** The first box of a region, cut out, is self-delimited unless its size field is 0. */
  lemma CutFirst(region: bytes)
    requires |region| >= 8 && FirstBox(region).Success?
    ensures var h := FirstBox(region).value; var box := region[..h.size];
            && SizeField(box) == SizeField(region) && FirstBox(box) == Success(h)
            && (SizeField(region) != 0 ==> SelfDelimited(box))
            && (SizeField(region) == 0 ==> h.size == |region|)
  {
    hide FromBigEndian;
    var h := FirstBox(region).value;
    var box := region[..h.size];
    assert box[..4] == region[..4] && box[4..8] == region[4..8];
    if SizeField(region) == 1 {
      assert Slice(box, 8, 16) == Slice(region, 8, 16);
    }
  }

  /** A header printed with a 32-bit size that includes its eight bytes. */
  function PrintBox(kind: bytes, body: bytes): bytes {
    BigEndian(8 + |body|, 4) + kind + body
  }

  lemma PrintBoxMeans(kind: bytes, body: bytes)
    requires |kind| == 4 && 8 + |body| < 0x1_0000_0000
    ensures var box := PrintBox(kind, body);
            && |box| == 8 + |body| && SizeField(box) == 8 + |body|
            && SelfDelimited(box) && FirstBox(box) == Success(Head(kind, 8, 8 + |body|))
            && box[8..] == body
  {
    var box := PrintBox(kind, body);
    Pow2Of32();
    FromToBigEndian(8 + |body|, 4);
    assert box[..4] == BigEndian(8 + |body|, 4);
    assert box[4..8] == kind;
    assert box[8..] == body;
  }
}
