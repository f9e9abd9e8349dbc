/** The walker over sibling EBML elements, what it yields, and how it reacts to edits of the data. */
module EbmlWalk {
  import opened Bits
  import opened Bytes
  import opened Wrappers
  import opened EbmlVint

  datatype Child = Child(id: nat, offset: nat, payload: nat, end: nat)

  /** What a generator does when it is driven: the items it yields, then an exception or a normal end. */
  datatype Walk = Walk(items: seq<Child>, error: Option<Error>)

  function Prepend(items: seq<Child>, w: Walk): Walk {
    Walk(items + w.items, w.error)
  }

  /** The element whose header starts at `offset`. */
  function ReadChild(data: bytes, offset: nat, end: nat): (r: Result<Child, Error>)
    ensures r.Success? ==> r.value.offset == offset && offset + 2 <= r.value.payload <= r.value.end <= end
  {
    var id :- ReadHeader(data, offset, false);
    var size :- ReadHeader(data, offset + id.length, true);
    var payload := offset + id.length + size.length;
    if payload + size.value > end then Failure(ValueError)
    else Success(Child(id.value, offset, payload, payload + size.value))
  }

  function WalkChildren(data: bytes, start: nat, end: nat): Walk
    decreases end - start
  {
    if start >= end then Walk([], None)
    else
      match ReadChild(data, start, end)
      case Failure(e) => Walk([], Some(e))
      case Success(child) => Prepend([child], WalkChildren(data, child.end, end))
  }

  lemma WalkOne(data: bytes, items: seq<Child>, start: nat, end: nat)
    requires start < end
    ensures Prepend(items, WalkChildren(data, start, end))
         == match ReadChild(data, start, end)
            case Failure(e) => Walk(items, Some(e))
            case Success(child) => Prepend(items + [child], WalkChildren(data, child.end, end))
  {
    hide ReadChild;
    var r := ReadChild(data, start, end);
    if r.Success? {
      var rest := WalkChildren(data, r.value.end, end);
      assert items + ([r.value] + rest.items) == (items + [r.value]) + rest.items;
    }
  }

  /** The generator's loop, driven until it stops or raises. */
  method EbmlChildren(data: bytes, start: nat, end: nat) returns (items: seq<Child>, error: Option<Error>)
    ensures Walk(items, error) == WalkChildren(data, start, end)
  {
    hide ReadHeader;
    items := [];
    var offset := start;
    while offset < end
      invariant WalkChildren(data, start, end) == Prepend(items, WalkChildren(data, offset, end))
      decreases end - offset
    {
      WalkOne(data, items, offset, end);
      var id := ReadEbmlHeader(data, offset, false);
      if id.Failure? {
        return items, Some(id.error);
      }
      var size := ReadEbmlHeader(data, offset + id.value.length, true);
      if size.Failure? {
        return items, Some(size.error);
      }
      var payload := offset + id.value.length + size.value.length;
      var boxEnd := payload + size.value.value;
      if boxEnd > end {
        return items, Some(ValueError);
      }
      items := items + [Child(id.value.value, offset, payload, boxEnd)];
      offset := boxEnd;
    }
    return items, None;
  }

  // ----- What the walker yields on arbitrary data

  /** Consecutive elements touch, each is at least two bytes long and all stay inside the parent. */
  ghost predicate Contiguous(items: seq<Child>, start: nat, end: nat) {
    && (items != [] ==> items[0].offset == start)
    && (forall i :: 0 <= i < |items| ==>
        start <= items[i].offset && items[i].offset + 2 <= items[i].payload <= items[i].end <= end)
    && (forall i :: 0 < i < |items| ==> items[i].offset == items[i - 1].end)
  }

  lemma {:induction false} WalkIsContiguous(data: bytes, start: nat, end: nat)
    ensures Contiguous(WalkChildren(data, start, end).items, start, end)
    ensures var w := WalkChildren(data, start, end);
            w.error.None? && start <= end ==> end == if w.items == [] then start else w.items[|w.items| - 1].end
    decreases end - start
  {
    hide ReadChild;
    if start < end && ReadChild(data, start, end).Success? {
      var child := ReadChild(data, start, end).value;
      WalkIsContiguous(data, child.end, end);
      var rest := WalkChildren(data, child.end, end);
      assert WalkChildren(data, start, end).items == [child] + rest.items;
    }
  }

  /** In a contiguous list, elements further on start after the end of earlier ones. */
  lemma {:induction false} LaterStartsAfter(items: seq<Child>, start: nat, end: nat, i: nat, j: nat)
    requires Contiguous(items, start, end) && i < j < |items|
    ensures items[i].end <= items[j].offset
    decreases j - i
  {
    if i + 1 < j {
      LaterStartsAfter(items, start, end, i, j - 1);
    }
  }

  /** The walk is the first `i` items followed by a walk from the next one. */
  lemma {:induction false} WalkSplits(data: bytes, start: nat, end: nat, i: nat)
    requires i < |WalkChildren(data, start, end).items|
    ensures var w := WalkChildren(data, start, end);
            && w == Prepend(w.items[..i], WalkChildren(data, w.items[i].offset, end))
            && ReadChild(data, w.items[i].offset, end) == Success(w.items[i])
            && w.items[i].offset < end
    decreases i
  {
    hide ReadChild;
    var w := WalkChildren(data, start, end);
    var child := ReadChild(data, start, end).value;
    if i == 0 {
      assert w.items[..0] == [];
    } else {
      var rest := WalkChildren(data, child.end, end);
      assert w.items == [child] + rest.items;
      WalkSplits(data, child.end, end, i - 1);
      assert w.items[..i] == [child] + rest.items[..i - 1];
    }
  }

  /** As above, and the walk goes on from the end of item `i`. */
  lemma WalkSplitsAfter(data: bytes, start: nat, end: nat, i: nat)
    requires i < |WalkChildren(data, start, end).items|
    ensures var w := WalkChildren(data, start, end);
            w == Prepend(w.items[..i + 1], WalkChildren(data, w.items[i].end, end))
  {
    hide ReadChild;
    WalkSplits(data, start, end, i);
    var w := WalkChildren(data, start, end);
    assert w.items[..i + 1] == w.items[..i] + [w.items[i]];
  }

  // ----- Printing and walking again

  datatype Element = Element(id: nat, payload: bytes)

  /** The ID has its marker where it belongs and the payload's length fits eight size bytes. */
  ghost predicate Printable(e: Element) {
    (exists n: nat :: Marked(e.id, n)) && |e.payload| < Limit(8)
  }

  function PrintElements(elements: seq<Element>): Result<bytes, Error> {
    if elements == [] then Success([])
    else
      var first :- EbmlElement(elements[0].id, elements[0].payload);
      var rest :- PrintElements(elements[1..]);
      Success(first + rest)
  }

  /** A marked ID, a size of any width and a payload of that size are walked as one element. */
  lemma ReadPrinted(data: bytes, s: nat, end: nat, id: nat, idLen: nat, size: nat, sizeLen: nat)
    requires Marked(id, idLen) && VintWithLength(size, sizeLen).Success?
    requires s + idLen + sizeLen + size <= end <= |data|
    requires data[s..s + idLen] == BigEndian(id, idLen)
    requires data[s + idLen..s + idLen + sizeLen] == VintWithLength(size, sizeLen).value
    ensures ReadChild(data, s, end) == Success(Child(id, s, s + idLen + sizeLen, s + idLen + sizeLen + size))
    ensures WalkChildren(data, s, end)
         == Prepend([Child(id, s, s + idLen + sizeLen, s + idLen + sizeLen + size)],
                    WalkChildren(data, s + idLen + sizeLen + size, end))
  {
    hide ReadHeader, VintWithLength;
    ReadMarked(data, s, id, idLen);
    VintRoundTrip(data, s + idLen, size, sizeLen);
  }

  lemma {:induction false} AlwaysPrints(elements: seq<Element>)
    requires forall e :: e in elements ==> Printable(e)
    ensures PrintElements(elements).Success?
  {
    hide Vint, Pow2, EbmlId;
    if elements == [] {
    } else {
      assert elements[0] in elements;
      VintIsMinimal(|elements[0].payload|);
      AlwaysPrints(elements[1..]);
    }
  }

  /** A printed element is walked as one element with the printed ID and payload, wherever it stands. */
  lemma WalkPrinted(data: bytes, s: nat, end: nat, e: Element, p: bytes)
    requires Printable(e) && EbmlElement(e.id, e.payload) == Success(p)
    requires s + |p| <= end <= |data| && data[s..s + |p|] == p
    ensures |p| >= |e.payload| + 2
    ensures var c := Child(e.id, s, s + |p| - |e.payload|, s + |p|);
            && data[c.payload..c.end] == e.payload
            && WalkChildren(data, s, end) == Prepend([c], WalkChildren(data, s + |p|, end))
  {
    hide ReadHeader, VintWithLength, ReadChild, WalkChildren, Pow2, BigEndian, DefaultLength;
    var idLen: nat :| Marked(e.id, idLen);
    IdShape(e.id, idLen);
    VintIsMinimal(|e.payload|);
    var size := Vint(|e.payload|).value;
    VintShape(|e.payload|, |size|);
    var h := idLen + |size|;
    assert p == BigEndian(e.id, idLen) + size + e.payload;
    PartOf(data, s, p, 0, idLen);
    PartOf(data, s, p, idLen, h);
    PartOf(data, s, p, h, |p|);
    assert p[0..idLen] == BigEndian(e.id, idLen) && p[idLen..h] == size && p[h..|p|] == e.payload;
    ReadPrinted(data, s, end, e.id, idLen, |e.payload|, |size|);
  }

  /** Walking a printed list gives back exactly the IDs and payloads, and no exception. */
  lemma {:induction false} PrintWalkRoundTrip(data: bytes, s: nat, end: nat, elements: seq<Element>)
    requires forall e :: e in elements ==> Printable(e)
    requires s <= end <= |data| && PrintElements(elements) == Success(data[s..end])
    ensures var w := WalkChildren(data, s, end);
            && w.error.None? && |w.items| == |elements|
            && forall i :: 0 <= i < |elements| ==>
                 && w.items[i].id == elements[i].id
                 && w.items[i].payload <= w.items[i].end <= |data|
                 && data[w.items[i].payload..w.items[i].end] == elements[i].payload
    decreases |elements|
  {
    hide EbmlElement, ReadChild;
    if elements == [] {
    } else {
      var p, rest := EbmlElement(elements[0].id, elements[0].payload).value, PrintElements(elements[1..]).value;
      assert data[s..end] == p + rest;
      assert data[s..s + |p|] == (p + rest)[..|p|];
      assert data[s + |p|..end] == (p + rest)[|p|..];
      WalkPrinted(data, s, end, elements[0], p);
      PrintWalkRoundTrip(data, s + |p|, end, elements[1..]);
    }
  }

  // ----- Edits that the walker does not notice

  /** Data that agree from `from` on give the same walk from there, exceptions included. */
  lemma {:induction false} WalkSameSuffix(data: bytes, other: bytes, from: nat, start: nat, end: nat)
    requires |data| == |other| && from <= |data| && data[from..] == other[from..] && from <= start
    ensures WalkChildren(other, start, end) == WalkChildren(data, start, end)
    decreases end - start
  {
    hide ReadChild;
    if start < end {
      ReadChildSameSuffix(data, other, from, start, end);
      if ReadChild(data, start, end).Success? {
        WalkSameSuffix(data, other, from, ReadChild(data, start, end).value.end, end);
      }
    }
  }

  lemma ReadSameSuffix(data: bytes, other: bytes, from: nat, offset: nat, size: bool)
    requires |data| == |other| && from <= |data| && data[from..] == other[from..] && from <= offset
    ensures ReadHeader(other, offset, size) == ReadHeader(data, offset, size)
  {
    if offset < |data| {
      SuffixSlice(data, other, from, offset, offset + 1);
      assert data[offset] == data[offset..offset + 1][0];
      assert other[offset] == other[offset..offset + 1][0];
      var n := MarkerPosition(data[offset], 1);
      if offset + n <= |data| {
        SuffixSlice(data, other, from, offset, offset + n);
      }
    }
  }

  lemma ReadChildSameSuffix(data: bytes, other: bytes, from: nat, offset: nat, end: nat)
    requires |data| == |other| && from <= |data| && data[from..] == other[from..] && from <= offset
    ensures ReadChild(other, offset, end) == ReadChild(data, offset, end)
  {
    hide ReadHeader;
    ReadSameSuffix(data, other, from, offset, false);
    if ReadHeader(data, offset, false).Success? {
      ReadSameSuffix(data, other, from, offset + ReadHeader(data, offset, false).value.length, true);
    }
  }

  lemma ReadSamePrefix(data: bytes, other: bytes, to: nat, offset: nat, size: bool)
    requires |data| == |other| && to <= |data| && data[..to] == other[..to]
    requires ReadHeader(data, offset, size).Success? && offset + ReadHeader(data, offset, size).value.length <= to
    ensures ReadHeader(other, offset, size) == ReadHeader(data, offset, size)
  {
    PrefixSlice(data, other, to, offset, offset + ReadHeader(data, offset, size).value.length);
    ReadIsLocal(data, other, offset, size);
  }

  /** Data that agree before `to` give the same element header, if the header ends by then. */
  lemma ReadChildSamePrefix(data: bytes, other: bytes, to: nat, offset: nat, end: nat)
    requires |data| == |other| && to <= |data| && data[..to] == other[..to]
    requires ReadChild(data, offset, end).Success? && ReadChild(data, offset, end).value.payload <= to
    ensures ReadChild(other, offset, end) == ReadChild(data, offset, end)
  {
    hide ReadHeader;
    ReadSamePrefix(data, other, to, offset, false);
    ReadSamePrefix(data, other, to, offset + ReadHeader(data, offset, false).value.length, true);
  }

  /** Data that agree before `to` give the same items up to the one that starts at or before `to`. */
  lemma {:induction false} WalkSamePrefix(data: bytes, other: bytes, to: nat, start: nat, end: nat, i: nat)
    requires |data| == |other| && to <= |data| && data[..to] == other[..to]
    requires i < |WalkChildren(data, start, end).items| && WalkChildren(data, start, end).items[i].offset <= to
    ensures var w := WalkChildren(data, start, end);
            WalkChildren(other, start, end) == Prepend(w.items[..i], WalkChildren(other, w.items[i].offset, end))
    decreases i
  {
    hide ReadChild;
    var w := WalkChildren(data, start, end);
    var child := ReadChild(data, start, end).value;
    if i == 0 {
      assert w.items[..0] == [];
    } else {
      var rest := WalkChildren(data, child.end, end);
      assert w.items == [child] + rest.items;
      WalkIsContiguous(data, start, end);
      LaterStartsAfter(w.items, start, end, 0, i);
      ReadChildSamePrefix(data, other, to, start, end);
      WalkSamePrefix(data, other, to, child.end, end, i - 1);
      assert w.items[..i] == [child] + rest.items[..i - 1];
    }
  }

  /** An edit that stays inside the payload of one element leaves the walk over its siblings as it was. */
  lemma WalkIgnoresPayload(data: bytes, other: bytes, start: nat, end: nat, i: nat, lo: nat, hi: nat)
    requires |data| == |other| && lo <= hi <= |data| && data[..lo] == other[..lo] && data[hi..] == other[hi..]
    requires i < |WalkChildren(data, start, end).items|
    requires var c := WalkChildren(data, start, end).items[i]; c.payload <= lo && hi <= c.end
    ensures WalkChildren(other, start, end) == WalkChildren(data, start, end)
  {
    hide ReadChild;
    var w := WalkChildren(data, start, end);
    var c := w.items[i];
    WalkIsContiguous(data, start, end);
    WalkSplits(data, start, end, i);
    WalkSamePrefix(data, other, lo, start, end, i);
    ReadChildSamePrefix(data, other, lo, c.offset, end);
    WalkSameSuffix(data, other, hi, c.end, end);
  }
}
