/**
 The recursive box rewriter: it walks a file, descends into the five container kinds, replaces the
 `occurrence`-th box of the wanted kind by its transform and rebuilds every container it entered.
 */
module IsoBoxTree {
  import opened Bytes
  import opened Wrappers
  import opened IsoBoxes

  const MOOV: bytes := [0x6D, 0x6F, 0x6F, 0x76]
  const TRAK: bytes := [0x74, 0x72, 0x61, 0x6B]
  const MDIA: bytes := [0x6D, 0x64, 0x69, 0x61]
  const MINF: bytes := [0x6D, 0x69, 0x6E, 0x66]
  const STBL: bytes := [0x73, 0x74, 0x62, 0x6C]

  predicate IsContainer(kind: bytes) {
    kind == MOOV || kind == TRAK || kind == MDIA || kind == MINF || kind == STBL
  }

  /** What to look for, which one of them to replace (counting from 0) and with what. */
  datatype Mapping = Mapping(wanted: bytes, occurrence: nat, transform: bytes -> Result<bytes, Error>)

  // ----- The rewriter

  /** A container rebuilt around a new body: the size counts the old header, the header printed is eight bytes. */
  function Rebuilt(kind: bytes, header: nat, body: bytes): Result<bytes, Error> {
    if header + |body| >= 0x1_0000_0000 then Failure(OverflowError)
    else Success(PrintContainer(kind, header, body))
  }

  function PrintContainer(kind: bytes, header: nat, body: bytes): bytes {
    BigEndian(header + |body|, 4) + kind + body
  }

  /** The choice at each box: transform it if it is the wanted one, and count it if it is of the wanted kind. */
  function Choose(m: Mapping, kind: bytes, box: bytes, seen: nat): Result<(bytes, nat), Error> {
    if kind != m.wanted then Success((box, seen))
    else if seen != m.occurrence then Success((box, seen + 1))
    else
      var changed :- m.transform(box);
      Success((changed, seen + 1))
  }

  /** `visit`: the rewritten region and the number of wanted boxes seen by its end. */
  function Visit(region: bytes, m: Mapping, seen: nat): Result<(bytes, nat), Error>
    decreases |region|, 1
  {
    if |region| < 8 then Success(([], seen))
    else
      var h :- FirstBox(region);
      var first :- VisitBox(region[..h.size], h, m, seen);
      var rest :- Visit(region[h.size..], m, first.1);
      Success((first.0 + rest.0, rest.1))
  }

  function VisitBox(box: bytes, h: Head, m: Mapping, seen: nat): Result<(bytes, nat), Error>
    requires 8 <= h.header <= h.size == |box|
    decreases |box|, 0
  {
    if IsContainer(h.kind) then
      var inner :- Visit(box[h.header..], m, seen);
      var rebuilt :- Rebuilt(h.kind, h.header, inner.0);
      Choose(m, h.kind, rebuilt, inner.1)
    else Choose(m, h.kind, box, seen)
  }

  function MapMp4(data: bytes, m: Mapping): Result<bytes, Error> {
    var r :- Visit(data, m, 0);
    if r.1 <= m.occurrence then Failure(ValueError) else Success(r.0)
  }

  /** The closure around `visit`, with its non-local counter. */
  class BoxMapper {
    const m: Mapping
    var seen: nat

    constructor (m: Mapping)
      ensures this.m == m && seen == 0
    {
      this.m := m;
      seen := 0;
    }

    method VisitRegion(region: bytes) returns (r: Result<bytes, Error>)
      modifies this`seen
      ensures match Visit(region, m, old(seen))
              case Success(v) => r == Success(v.0) && seen == v.1
              case Failure(e) => r == Failure(e)
      decreases |region|
    {
      hide FirstBox, Choose, Rebuilt;
      var result: bytes := [];
      var rest := region;
      ghost var start := seen;
      NothingBefore(Visit(region, m, start));
      while |rest| >= 8
        invariant |rest| <= |region|
        invariant After(result, Visit(rest, m, seen)) == Visit(region, m, start)
        decreases |rest|
      {
        var head := FirstBox(rest);
        if head.Failure? {
          return Failure(head.error);
        }
        var h := head.value;
        var box := rest[..h.size];
        ghost var whole := box;
        ghost var before := seen;
        if IsContainer(h.kind) {
          var body := VisitRegion(box[h.header..]);
          if body.Failure? {
            return body;
          }
          var rebuilt := Rebuilt(h.kind, h.header, body.value);
          if rebuilt.Failure? {
            return rebuilt;
          }
          box := rebuilt.value;
        }
        var chosen := Choose(m, h.kind, box, seen);
        if chosen.Failure? {
          return Failure(chosen.error);
        }
        assert VisitBox(whole, h, m, before) == chosen;
        OneBoxLater(result, rest, m, before);
        seen := chosen.value.1;
        result := result + chosen.value.0;
        rest := rest[h.size..];
      }
      assert result + [] == result;
      return Success(result);
    }
  }

  /** What a visit returns when `result` was already written before it. */
  function After(result: bytes, r: Result<(bytes, nat), Error>): Result<(bytes, nat), Error> {
    match r
    case Success(v) => Success((result + v.0, v.1))
    case Failure(e) => Failure(e)
  }

  lemma NothingBefore(r: Result<(bytes, nat), Error>)
    ensures After([], r) == r
  {
    if r.Success? {
      assert [] + r.value.0 == r.value.0;
    }
  }

  lemma OneBoxLater(result: bytes, region: bytes, m: Mapping, seen: nat)
    requires |region| >= 8 && FirstBox(region).Success?
    requires VisitBox(region[..FirstBox(region).value.size], FirstBox(region).value, m, seen).Success?
    ensures var h := FirstBox(region).value;
            var first := VisitBox(region[..h.size], h, m, seen).value;
            After(result, Visit(region, m, seen))
              == After(result + first.0, Visit(region[h.size..], m, first.1))
  {
    hide FirstBox;
    var h := FirstBox(region).value;
    var first := VisitBox(region[..h.size], h, m, seen).value;
    var rest := Visit(region[h.size..], m, first.1);
    if rest.Success? {
      assert result + (first.0 + rest.value.0) == (result + first.0) + rest.value.0;
    }
  }

  method RunMapMp4(data: bytes, m: Mapping) returns (r: Result<bytes, Error>)
    ensures r == MapMp4(data, m)
  {
    hide Visit;
    var mapper := new BoxMapper(m);
    var result := mapper.VisitRegion(data);
    if result.Failure? {
      return result;
    }
    if mapper.seen <= m.occurrence {
      return Failure(ValueError);
    }
    return result;
  }

  // ----- The box tree

  /** A box that is kept as it is, or one that is entered, with the length of the header it was found with. */
  datatype Node =
    | Leaf(kind: bytes, raw: bytes)
    | Container(kind: bytes, header: nat, children: seq<Node>)

  /**
   The tree of every region in which every box is valid: bytes left over at the end of a region are dropped, and
   containers may have sizes of 0 or of 64 bits.
   */
  function Read(region: bytes): Option<seq<Node>>
    decreases |region|, 1
  {
    if |region| < 8 then Some([])
    else
      match FirstBox(region)
      case Failure(_) => None
      case Success(h) =>
        match ReadBox(region[..h.size], h)
        case None => None
        case Some(first) =>
          match Read(region[h.size..])
          case None => None
          case Some(rest) => Some([first] + rest)
  }

  function ReadBox(box: bytes, h: Head): Option<Node>
    requires 8 <= h.header <= h.size == |box|
    decreases |box|, 0
  {
    if !IsContainer(h.kind) then Some(Leaf(h.kind, box))
    else
      match Read(box[h.header..])
      case None => None
      case Some(children) => Some(Container(h.kind, h.header, children))
  }

  /** The region the rewriter prints for a list of boxes it leaves alone. */
  function Print(nodes: seq<Node>): bytes {
    if nodes == [] then [] else PrintNode(nodes[0]) + Print(nodes[1..])
  }

  function PrintNode(n: Node): bytes {
    match n
    case Leaf(_, raw) => raw
    case Container(kind, header, children) => PrintContainer(kind, header, Print(children))
  }

  /**
   The tree of a region in which every box is valid, every container has a 32-bit size that is not 0,
   and no bytes are left over at the end of any region; None for every other region.
   */
  function Parse(region: bytes): Option<seq<Node>>
    decreases |region|, 1
  {
    if region == [] then Some([])
    else if |region| < 8 then None
    else
      match FirstBox(region)
      case Failure(_) => None
      case Success(h) =>
        match ParseBox(region[..h.size], h)
        case None => None
        case Some(first) =>
          match Parse(region[h.size..])
          case None => None
          case Some(rest) => Some([first] + rest)
  }

  function ParseBox(box: bytes, h: Head): Option<Node>
    requires 8 <= h.header <= h.size == |box|
    decreases |box|, 0
  {
    if !IsContainer(h.kind) then Some(Leaf(h.kind, box))
    else if SizeField(box) <= 1 then None
    else
      match Parse(box[h.header..])
      case None => None
      case Some(children) => Some(Container(h.kind, 8, children))
  }

  /** Whether the printed node says where it ends. */
  ghost predicate Delimited(n: Node) {
    n.Leaf? ==> |n.raw| >= 4 && SizeField(n.raw) != 0
  }

  ghost predicate WfNode(n: Node) {
    match n
    case Leaf(kind, raw) =>
      && !IsContainer(kind) && |raw| >= 8 && FirstBox(raw).Success?
      && FirstBox(raw).value.kind == kind && FirstBox(raw).value.size == |raw|
    case Container(kind, header, children) =>
      IsContainer(kind) && header == 8 && 8 + |Print(children)| < 0x1_0000_0000 && WfList(children)
  }

  /** Only the last box of a region may extend "to the end". */
  ghost predicate WfList(nodes: seq<Node>) {
    nodes == [] || (WfNode(nodes[0]) && (|nodes| > 1 ==> Delimited(nodes[0])) && WfList(nodes[1..]))
  }

  // ----- Both readings agree on plain regions

  lemma {:induction false} PlainReads(region: bytes)
    requires Parse(region).Some?
    ensures Read(region) == Parse(region)
    decreases |region|, 1
  {
    hide FirstBox, ParseBox, ReadBox;
    if region != [] {
      ParseSteps(region);
      var h := FirstBox(region).value;
      CutFirst(region);
      PlainBoxReads(region[..h.size], h);
      PlainReads(region[h.size..]);
    }
  }

  lemma {:induction false} PlainBoxReads(box: bytes, h: Head)
    requires |box| >= 8 && FirstBox(box) == Success(h) && h.size == |box| && ParseBox(box, h).Some?
    ensures ReadBox(box, h) == ParseBox(box, h)
    decreases |box|, 0
  {
    hide SizeField, Parse, Read;
    if IsContainer(h.kind) {
      PlainReads(box[h.header..]);
    }
  }

  // ----- Parsing and printing are inverse

  lemma ParseSteps(region: bytes)
    requires Parse(region).Some? && region != []
    ensures |region| >= 8 && FirstBox(region).Success?
    ensures var h := FirstBox(region).value;
            && ParseBox(region[..h.size], h).Some? && Parse(region[h.size..]).Some?
            && (region[h.size..] == [] ==> Parse(region[h.size..]).value == [])
            && Parse(region).value == [ParseBox(region[..h.size], h).value] + Parse(region[h.size..]).value
  {
    hide FirstBox, ParseBox;
  }

  lemma {:induction false} ParsePrint(region: bytes)
    requires Parse(region).Some?
    ensures Print(Parse(region).value) == region && WfList(Parse(region).value)
    decreases |region|, 1
  {
    hide FirstBox, SizeField, ParseBox, WfNode, Delimited, PrintNode, Parse;
    if region == [] {
      assert Parse([]) == Some([]) by {
        EmptyRegion();
      }
    } else {
      ParseSteps(region);
      var h := FirstBox(region).value;
      var box, tail := region[..h.size], region[h.size..];
      CutFirst(region);
      ParseBoxPrint(box, h);
      ParsePrint(tail);
      Cons(ParseBox(box, h).value, Parse(tail).value);
      assert region == box + tail;
    }
  }

  lemma EmptyRegion()
    ensures Parse([]) == Some([])
  {
  }

  lemma Cons(first: Node, rest: seq<Node>)
    requires WfNode(first) && WfList(rest) && (rest != [] ==> Delimited(first))
    ensures WfList([first] + rest) && Print([first] + rest) == PrintNode(first) + Print(rest)
  {
    hide WfNode, Delimited, PrintNode;
    assert ([first] + rest)[1..] == rest;
  }

  lemma {:induction false} ParseBoxPrint(box: bytes, h: Head)
    requires |box| >= 8 && FirstBox(box) == Success(h) && h.size == |box|
    requires ParseBox(box, h).Some?
    ensures PrintNode(ParseBox(box, h).value) == box && WfNode(ParseBox(box, h).value)
    ensures SizeField(box) != 0 ==> Delimited(ParseBox(box, h).value)
    decreases |box|, 0
  {
    if IsContainer(h.kind) {
      ParsePrint(box[h.header..]);
      RebuiltSame(box, h);
    }
  }

  /** A box with a 32-bit size, taken apart and printed again. */
  lemma RebuiltSame(box: bytes, h: Head)
    requires |box| >= 8 && FirstBox(box) == Success(h) && h.size == |box| && SizeField(box) > 1
    ensures h.header == 8 && PrintBox(h.kind, box[8..]) == box && 8 + |box[8..]| < 0x1_0000_0000
  {
    hide FromBigEndian, BigEndian;
    ToFromBigEndian(box[..4]);
    assert box == box[..4] + box[4..8] + box[8..];
  }

  lemma {:induction false} PrintParse(nodes: seq<Node>)
    requires WfList(nodes)
    ensures Parse(Print(nodes)) == Some(nodes)
    decreases nodes, 1
  {
    hide FirstBox, PrintBox;
    if nodes == [] {
    } else {
      var n, rest := nodes[0], nodes[1..];
      PrintNodeParse(n);
      PrintParse(rest);
      var box, tail := PrintNode(n), Print(rest);
      if SizeField(box) != 0 {
        FirstOfConcat(box, tail);
      } else {
        assert rest == [] && box + tail == box;
      }
      assert (box + tail)[..|box|] == box && (box + tail)[|box|..] == tail;
      assert nodes == [n] + rest;
    }
  }

  lemma {:induction false} PrintNodeParse(n: Node)
    requires WfNode(n)
    ensures var box := PrintNode(n);
            && |box| >= 8 && FirstBox(box).Success? && FirstBox(box).value.size == |box|
            && (Delimited(n) ==> SelfDelimited(box)) && (SizeField(box) == 0 ==> !Delimited(n))
            && ParseBox(box, FirstBox(box).value) == Some(n)
    decreases n, 0
  {
    match n
    case Leaf(_, _) =>
    case Container(kind, _, children) =>
      PrintBoxMeans(kind, Print(children));
      PrintParse(children);
  }
}
