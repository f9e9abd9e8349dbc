/** The two transforms the fixtures give to the box rewriter: a `cslg` box after `ctts`, and extra `stsd` entries. */
module IsoFixtures {
  import opened Bits
  import opened Bytes
  import opened Wrappers
  import opened IsoBoxes
  import opened IsoBoxTree
  import opened IsoBoxEdit

  const CTTS: bytes := [0x63, 0x74, 0x74, 0x73]
  const CSLG: bytes := [0x63, 0x73, 0x6C, 0x67]
  const STSD: bytes := [0x73, 0x74, 0x73, 0x64]

  // ----- Adding a cslg box

  /** `struct.pack(">q", v)`. */
  function PackInt64(v: int): Result<bytes, Error> {
    if -0x8000_0000_0000_0000 <= v < 0x8000_0000_0000_0000
    then Success(BigEndian(if v < 0 then v + 0x1_0000_0000_0000_0000 else v, 8))
    else Failure(StructError)
  }

  /** Reading eight bytes as a two's-complement number. */
  function UnpackInt64(s: bytes): int {
    var v := FromBigEndian(s);
    if v < 0x8000_0000_0000_0000 then v else v - 0x1_0000_0000_0000_0000
  }

  lemma PackRoundTrip(v: int)
    ensures PackInt64(v).Success? <==> -0x8000_0000_0000_0000 <= v < 0x8000_0000_0000_0000
    ensures PackInt64(v).Success? ==> UnpackInt64(PackInt64(v).value) == v
  {
    hide FromBigEndian, BigEndian;
    Pow2Of32();
    Pow2Add(32, 32);
    if PackInt64(v).Success? {
      FromToBigEndian(if v < 0 then v + 0x1_0000_0000_0000_0000 else v, 8);
    }
  }

  /** A version 1 `cslg` box: 52 bytes, the shift twice and three zeros. */
  function CslgBox(shift: int): (r: Result<bytes, Error>)
    ensures r.Success? ==> |r.value| == 52
  {
    var s :- PackInt64(shift);
    Success(BigEndian(52, 4) + CSLG + [1] + Zeros(3) + s + s + Zeros(24))
  }

  /** The end of the first `ctts` box. */
  function EndOfCtts(items: seq<Box>): Result<nat, Error> {
    if items == [] then Failure(StopIteration)
    else if items[0].kind == CTTS then Success(items[0].end)
    else EndOfCtts(items[1..])
  }

  function AddCslg(stbl: bytes, shift: int): Result<bytes, Error> {
    var body := Slice(stbl, 8, |stbl|);
    var cslg :- CslgBox(shift);
    var w := WalkBoxes(body, 0, |body|);
    if w.error.Some? then Failure(w.error.value)
    else
      var at :- EndOfCtts(w.items);
      var changed := Slice(body, 0, at) + cslg + Slice(body, at, |body|);
      if |changed| + 8 >= 0x1_0000_0000 then Failure(StructError) else Success(PrintBox(STBL, changed))
  }

  function CslgMapping(shift: int): Mapping {
    Mapping(STBL, 0, (stbl: bytes) => AddCslg(stbl, shift))
  }

  // ----- Lists of nodes

  lemma {:induction false} PrintConcat(a: seq<Node>, b: seq<Node>)
    ensures Print(a + b) == Print(a) + Print(b)
  {
    hide Print, PrintNode;
    PrintUnfold(a);
    if a == [] {
      assert a + b == b;
    } else {
      PrintUnfold(a + b);
      assert (a + b)[1..] == a[1..] + b;
      PrintConcat(a[1..], b);
      Associates(PrintNode(a[0]), Print(a[1..]), Print(b));
    }
  }

  lemma PrintUnfold(nodes: seq<Node>)
    ensures Print(nodes) == if nodes == [] then [] else PrintNode(nodes[0]) + Print(nodes[1..])
  {
  }

  lemma Associates(a: bytes, b: bytes, c: bytes)
    ensures (a + b) + c == a + (b + c)
  {
  }

  lemma {:induction false} WfConcat(a: seq<Node>, b: seq<Node>)
    requires WfList(a) && WfList(b) && (a != [] && b != [] ==> Delimited(a[|a| - 1]))
    ensures WfList(a + b)
  {
    hide WfNode, Delimited;
    if a == [] {
      assert a + b == b;
    } else {
      WfConcat(a[1..], b);
      assert (a + b)[1..] == a[1..] + b;
    }
  }

  lemma {:induction false} WfSplit(nodes: seq<Node>, i: nat)
    requires WfList(nodes) && i <= |nodes|
    ensures WfList(nodes[..i]) && WfList(nodes[i..])
    ensures i < |nodes| ==> WfNode(nodes[i])
    ensures i + 1 < |nodes| ==> Delimited(nodes[i])
  {
    hide WfNode, Delimited;
    if i == 0 {
    } else {
      WfSplit(nodes[1..], i - 1);
      assert nodes[..i][1..] == nodes[1..][..i - 1];
      assert nodes[i..] == nodes[1..][i - 1..];
    }
  }

  /** These are the places of the nodes of a region that starts at `start`. */
  ghost predicate Places(items: seq<Box>, nodes: seq<Node>, start: nat) {
    && |items| == |nodes|
    && forall i :: 0 <= i < |nodes| ==>
         && items[i].kind == nodes[i].kind
         && items[i].offset == start + |Print(nodes[..i])|
         && items[i].end == start + |Print(nodes[..i + 1])|
  }

  lemma {:induction false} PlacesCons(box: Box, later: seq<Box>, n: Node, rest: seq<Node>, start: nat)
    requires box.kind == n.kind && box.offset == start && box.end == start + |PrintNode(n)|
    requires Places(later, rest, start + |PrintNode(n)|)
    ensures Places([box] + later, [n] + rest, start)
  {
    hide Print, PrintNode;
    var items, nodes := [box] + later, [n] + rest;
    assert nodes[1..] == rest;
    forall i | 0 <= i < |nodes|
      ensures items[i].offset == start + |Print(nodes[..i])| && items[i].end == start + |Print(nodes[..i + 1])|
    {
      PrintPrefix(nodes, i + 1);
      if i > 0 {
        PrintPrefix(nodes, i);
        assert items[i] == later[i - 1];
      } else {
        assert nodes[..0] == [] && rest[..0] == [];
        PrintUnfold([]);
      }
    }
  }

  /** The walker over a plain region yields the tree's top-level boxes, in order and in place. */
  lemma {:induction false} WalkMatches(data: bytes, start: nat, nodes: seq<Node>)
    requires start <= |data| && Parse(data[start..]) == Some(nodes)
    ensures WalkBoxes(data, start, |data|).error.None? && Places(WalkBoxes(data, start, |data|).items, nodes, start)
    decreases |data| - start
  {
    hide FirstBox, ParseBox, Parse, PrintNode, WfNode, Places;
    var region := data[start..];
    assert region == data[start..|data|];
    if region == [] {
      EmptyRegion();
      NoPlaces(start);
    } else {
      ParseSteps(region);
      var h := FirstBox(region).value;
      var box, tail := region[..h.size], region[h.size..];
      CutFirst(region);
      ParseBoxPrint(box, h);
      ParseBoxKind(box, h);
      assert tail == data[start + h.size..];
      assert nodes[1..] == Parse(tail).value;
      WalkMatches(data, start + h.size, nodes[1..]);
      PlacesCons(Box(h.kind, start, start + h.header, start + h.size), WalkBoxes(data, start + h.size, |data|).items,
                 nodes[0], nodes[1..], start);
      assert nodes == [nodes[0]] + nodes[1..];
    }
  }

  lemma NoPlaces(start: nat)
    ensures Places([], [], start)
  {
  }

  lemma ParseBoxKind(box: bytes, h: Head)
    requires 8 <= h.header <= h.size == |box| && ParseBox(box, h).Some?
    ensures ParseBox(box, h).value.kind == h.kind
  {
  }

  lemma PrintPrefix(nodes: seq<Node>, i: nat)
    requires 1 <= i <= |nodes|
    ensures Print(nodes[..i]) == PrintNode(nodes[0]) + Print(nodes[1..][..i - 1])
  {
    hide PrintNode;
    assert nodes[..i][1..] == nodes[1..][..i - 1];
  }

  /** The position of the first child of the given kind. */
  function FirstOfKind(nodes: seq<Node>, kind: bytes): (r: Option<nat>)
    ensures r.Some? ==> r.value < |nodes| && nodes[r.value].kind == kind
    ensures forall k :: 0 <= k < (if r.Some? then r.value else |nodes|) ==> nodes[k].kind != kind
  {
    if nodes == [] then None
    else if nodes[0].kind == kind then Some(0)
    else match FirstOfKind(nodes[1..], kind)
         case None => None
         case Some(i) => Some(i + 1)
  }

  lemma {:induction false} EndOfCttsMeans(items: seq<Box>, nodes: seq<Node>)
    requires |items| == |nodes| && forall i :: 0 <= i < |items| ==> items[i].kind == nodes[i].kind
    ensures EndOfCtts(items) == match FirstOfKind(nodes, CTTS)
                                case None => Failure(StopIteration)
                                case Some(i) => Success(items[i].end)
  {
    if items != [] {
      EndOfCttsMeans(items[1..], nodes[1..]);
    }
  }

  // ----- What AddCslg does to the tree

  function WithCslg(children: seq<Node>, i: nat, cslg: bytes): seq<Node>
    requires i < |children|
  {
    children[..i + 1] + [Leaf(CSLG, cslg)] + children[i + 1..]
  }

  lemma CslgShape(shift: int)
    requires CslgBox(shift).Success?
    ensures WfNode(Leaf(CSLG, CslgBox(shift).value)) && Delimited(Leaf(CSLG, CslgBox(shift).value))
  {
    hide FromBigEndian, BigEndian;
    var b := CslgBox(shift).value;
    var s := PackInt64(shift).value;
    var rest := [1] + Zeros(3) + s + s + Zeros(24);
    assert b == BigEndian(52, 4) + CSLG + rest;
    PrintBoxMeans(CSLG, rest);
  }

  /** Version 1, no flags, the shift in the first two 64-bit fields and zero in the other three. */
  lemma CslgFields(shift: int)
    requires CslgBox(shift).Success?
    ensures var b := CslgBox(shift).value;
            && b[4..8] == CSLG && b[8..12] == [1, 0, 0, 0]
            && UnpackInt64(b[12..20]) == UnpackInt64(b[20..28]) == shift
            && UnpackInt64(b[28..36]) == UnpackInt64(b[36..44]) == UnpackInt64(b[44..52]) == 0
  {
    hide FromBigEndian, BigEndian, UnpackInt64;
    var b, s := CslgBox(shift).value, PackInt64(shift).value;
    assert b[12..20] == s && b[20..28] == s;
    PackRoundTrip(shift);
    PackRoundTrip(0);
    ZerosArePacked();
    assert b[28..36] == Zeros(8) && b[36..44] == Zeros(8) && b[44..52] == Zeros(8);
  }

  lemma ZerosArePacked()
    ensures PackInt64(0).value == Zeros(8)
  {
    ZerosBigEndian(8);
  }

  lemma {:induction false} ZerosBigEndian(n: nat)
    ensures BigEndian(0, n) == Zeros(n)
  {
    if n > 0 {
      ZerosBigEndian(n - 1);
      assert Zeros(n) == Zeros(n - 1) + [0];
    }
  }

  /** An `stbl` the rewriter entered, whatever its header was, with well-formed boxes inside. */
  ghost predicate IsStbl(n: Node) {
    n.Container? && n.kind == STBL && WfList(n.children)
  }

  /**
   On such an `stbl` the transform succeeds exactly if there is a `ctts`, the shift is a 64-bit number and
   the result is short enough; it prints the same children with `cslg` behind the first `ctts`.
   */
  lemma AddCslgPrints(n: Node, shift: int)
    requires IsStbl(n)
    ensures AddCslg(PrintNode(n), shift).Success? <==>
              && FirstOfKind(n.children, CTTS).Some?
              && -0x8000_0000_0000_0000 <= shift < 0x8000_0000_0000_0000
              && |PrintNode(n)| + 52 < 0x1_0000_0000
    ensures AddCslg(PrintNode(n), shift).Success? ==>
              && CslgBox(shift).Success?
              && var all := WithCslg(n.children, FirstOfKind(n.children, CTTS).value, CslgBox(shift).value);
              && AddCslg(PrintNode(n), shift) == Success(PrintNode(Container(STBL, 8, all)))
              && 8 + |Print(all)| < 0x1_0000_0000
              && |Print(all)| == |Print(n.children)| + 52
  {
    hide FirstBox, Parse, CslgBox, Print, WalkBoxes, EndOfCtts, WfList, PrintNode;
    var children := n.children;
    var body, stbl := Print(children), PrintNode(n);
    StblBody(n);
    assert Slice(stbl, 8, |stbl|) == stbl[8..] == body;
    PrintParse(children);
    assert body[0..] == body;
    WalkMatches(body, 0, children);
    EndOfCttsMeans(WalkBoxes(body, 0, |body|).items, children);
    CslgSucceeds(shift);
    if FirstOfKind(children, CTTS).Some? && CslgBox(shift).Success? {
      var all := WithCslg(children, FirstOfKind(children, CTTS).value, CslgBox(shift).value);
      CslgInserted(children, FirstOfKind(children, CTTS).value, CslgBox(shift).value);
      StblPrints(all);
    }
  }

  lemma StblBody(n: Node)
    requires n.Container? && n.kind == STBL
    ensures |PrintNode(n)| == 8 + |Print(n.children)| && PrintNode(n)[8..] == Print(n.children)
  {
    hide Print, BigEndian;
  }

  lemma StblPrints(children: seq<Node>)
    ensures PrintNode(Container(STBL, 8, children)) == PrintBox(STBL, Print(children))
  {
    hide Print, BigEndian;
  }

  lemma CslgSucceeds(shift: int)
    ensures CslgBox(shift).Success? <==> -0x8000_0000_0000_0000 <= shift < 0x8000_0000_0000_0000
  {
    hide BigEndian;
  }

  /** Inserting bytes behind the first `i + 1` boxes prints the list with a box of those bytes inserted. */
  lemma CslgInserted(children: seq<Node>, i: nat, cslg: bytes)
    requires i < |children|
    ensures var body, at := Print(children), |Print(children[..i + 1])|;
            && at <= |body|
            && Slice(body, 0, at) + cslg + Slice(body, at, |body|) == Print(WithCslg(children, i, cslg))
            && |Print(WithCslg(children, i, cslg))| == |body| + |cslg|
  {
    hide Print;
    var a, b := children[..i + 1], children[i + 1..];
    assert children == a + b;
    PrintConcat(a, b);
    PrintConcat(a + [Leaf(CSLG, cslg)], b);
    PrintConcat(a, [Leaf(CSLG, cslg)]);
    PrintOne(Leaf(CSLG, cslg));
  }

  /** The children a reader finds: a `ctts` that does not state its own size swallows the new box. */
  function CslgResult(children: seq<Node>, i: nat, cslg: bytes): seq<Node>
    requires i < |children| && children[i].Leaf? && |children[i].raw| >= 4
  {
    if SizeField(children[i].raw) != 0 then WithCslg(children, i, cslg)
    else children[..i] + [Leaf(children[i].kind, children[i].raw + cslg)]
  }

  lemma LeafAt(nodes: seq<Node>, i: nat)
    requires WfList(nodes) && i < |nodes| && !IsContainer(nodes[i].kind)
    ensures nodes[i].Leaf? && |nodes[i].raw| >= 8 && WfNode(nodes[i])
  {
    hide FirstBox;
    WfMember(nodes, i);
  }

  /** Bytes behind a leaf that extends to the end become part of it. */
  lemma Swallows(nodes: seq<Node>, more: bytes)
    requires WfList(nodes) && nodes != [] && !Delimited(nodes[|nodes| - 1])
    ensures var last := nodes[|nodes| - 1];
            && last.Leaf?
            && WfList(nodes[..|nodes| - 1] + [Leaf(last.kind, last.raw + more)])
            && Print(nodes[..|nodes| - 1] + [Leaf(last.kind, last.raw + more)]) == Print(nodes) + more
  {
    hide WfList, Print, PrintNode, WfNode, Delimited;
    var front, last := nodes[..|nodes| - 1], nodes[|nodes| - 1];
    WfSplit(nodes, |nodes| - 1);
    LongerLeaf(last, more);
    var longer := Leaf(last.kind, last.raw + more);
    OneIsWf(longer);
    if front != [] {
      WfSplit(nodes, |nodes| - 2);
      assert front[|front| - 1] == nodes[|nodes| - 2];
    }
    WfConcat(front, [longer]);
    PrintConcat(front, [longer]);
    PrintConcat(front, [last]);
    assert nodes == front + [last];
    PrintOne(last);
    PrintOne(longer);
    LeafPrints(last, more);
    Associates(Print(front), last.raw, more);
  }

  lemma LeafPrints(leaf: Node, more: bytes)
    requires leaf.Leaf?
    ensures PrintNode(leaf) == leaf.raw && PrintNode(Leaf(leaf.kind, leaf.raw + more)) == leaf.raw + more
  {
  }

  lemma LongerLeaf(leaf: Node, more: bytes)
    requires WfNode(leaf) && !Delimited(leaf)
    ensures leaf.Leaf? && WfNode(Leaf(leaf.kind, leaf.raw + more))
  {
    var raw := leaf.raw + more;
    assert raw[..4] == leaf.raw[..4] && raw[4..8] == leaf.raw[4..8];
  }

  lemma OneIsWf(n: Node)
    requires WfNode(n)
    ensures WfList([n])
  {
    hide WfNode;
    assert [n][1..] == [];
  }

  /**
   The transformed `stbl` parses to the old children with `cslg` inserted exactly if the `ctts` box states
   its own size; otherwise the new box becomes the end of `ctts`.
   */
  lemma CslgInsertedExactly(n: Node, shift: int)
    requires IsStbl(n) && AddCslg(PrintNode(n), shift).Success?
    ensures FirstOfKind(n.children, CTTS).Some? && CslgBox(shift).Success?
    ensures var i, out := FirstOfKind(n.children, CTTS).value, AddCslg(PrintNode(n), shift).value;
            && n.children[i].Leaf? && |n.children[i].raw| >= 8
            && var cslg := CslgBox(shift).value;
            && PrintNode(Container(STBL, 8, CslgResult(n.children, i, cslg))) == out
            && WfNode(Container(STBL, 8, CslgResult(n.children, i, cslg)))
            && |out| == |PrintNode(n)| + 52
            && Parse(out) == Some([Container(STBL, 8, CslgResult(n.children, i, cslg))])
            && (Parse(out) == Some([Container(STBL, 8, WithCslg(n.children, i, cslg))]) <==>
                SizeField(n.children[i].raw) != 0)
  {
    hide AddCslg, CslgBox, Parse, Print, WfList, FirstBox, PrintContainer, BigEndian;
    var children := n.children;
    AddCslgPrints(n, shift);
    var i, cslg := FirstOfKind(children, CTTS).value, CslgBox(shift).value;
    LeafAt(children, i);
    var result := CslgResult(children, i, cslg);
    CslgResultWf(children, i, cslg, shift);
    OneNodeParses(Container(STBL, 8, result));
    StblBody(n);
    StblBody(Container(STBL, 8, result));
    if result == WithCslg(children, i, cslg) {
      WithCslgWf(children, i, cslg, shift);
    }
  }

  lemma CslgResultWf(children: seq<Node>, i: nat, cslg: bytes, shift: int)
    requires WfList(children) && i < |children| && children[i].Leaf? && |children[i].raw| >= 4
    requires CslgBox(shift) == Success(cslg)
    ensures WfList(CslgResult(children, i, cslg))
    ensures Print(CslgResult(children, i, cslg)) == Print(WithCslg(children, i, cslg))
  {
    hide CslgBox, WfList, Print;
    if Delimited(children[i]) {
      WithCslgWf(children, i, cslg, shift);
    } else {
      WfSplit(children, i);
      assert i == |children| - 1;
      Swallows(children, cslg);
      PrintConcat(children, [Leaf(CSLG, cslg)]);
      PrintOne(Leaf(CSLG, cslg));
      assert WithCslg(children, i, cslg) == children + [Leaf(CSLG, cslg)];
    }
  }

  lemma WithCslgWf(children: seq<Node>, i: nat, cslg: bytes, shift: int)
    requires WfList(children) && i < |children| && CslgBox(shift) == Success(cslg)
    ensures WfList(WithCslg(children, i, cslg)) <==> Delimited(children[i])
  {
    hide CslgBox, Delimited, WfList;
    var leaf, all := Leaf(CSLG, cslg), WithCslg(children, i, cslg);
    if WfList(all) {
      WfSplit(all, i);
      assert all[i] == children[i];
    }
    if Delimited(children[i]) {
      WfSplit(children, i + 1);
      CslgShape(shift);
      Cons(leaf, []) by {
        NothingIsWf();
      }
      assert [leaf] + [] == [leaf];
      WfConcat(children[..i + 1], [leaf]);
      WfConcat(children[..i + 1] + [leaf], children[i + 1..]);
    }
  }

  lemma NothingIsWf()
    ensures WfList([])
  {
  }

  lemma OneNodeParses(x: Node)
    requires x.Container?
    ensures Parse(PrintNode(x)) == Some([x]) <==> WfNode(x)
  {
    hide WfNode, PrintNode, Parse;
    PrintOne(x);
    assert [x][1..] == [];
    if WfNode(x) {
      PrintParse([x]);
    }
    if Parse(PrintNode(x)) == Some([x]) {
      ParsePrint(PrintNode(x));
    }
  }

  /** The boxes inside the first `stbl` are well-formed: there is no container with a 64-bit size inside of it. */
  ghost predicate FirstStblOk(nodes: seq<Node>) {
    0 < Count(nodes, STBL) ==>
      var n := NodeAt(nodes, FindNth(nodes, STBL, 0));
      n.Container? ==> WfList(n.children)
  }

  lemma {:induction false} OkAt(nodes: seq<Node>, path: Path)
    requires OkList(nodes) && ValidPath(nodes, path)
    ensures OkNode(NodeAt(nodes, path))
    decreases |path|
  {
    assert nodes[path[0]] in nodes;
    if |path| > 1 {
      OkAt(nodes[path[0]].children, path[1..]);
    }
  }

  lemma FirstStbl(data: bytes) returns (path: Path)
    requires Read(data).Some? && 0 < Count(Read(data).value, STBL) && FirstStblOk(Read(data).value)
    ensures path == FindNth(Read(data).value, STBL, 0) && IsStbl(NodeAt(Read(data).value, path))
  {
    hide Read, Count, FindNth, NodeAt, WfList, OkList;
    path := FindNth(Read(data).value, STBL, 0);
    ReadOk(data);
    OkAt(Read(data).value, path);
    StblIsContainer(NodeAt(Read(data).value, path));
  }

  lemma StblIsContainer(n: Node)
    requires OkNode(n) && n.kind == STBL
    ensures n.Container?
  {
    hide FirstBox, OkList;
  }

  /**
   The `m2-cslg` fixture: the input's tree with the first `stbl` changed as above is printed, 52 bytes longer; the
   output parses to that tree exactly if no container in it has a 64-bit size. The first `stbl` itself may have had one.
   */
  lemma M2AddsOneCslg(data: bytes, shift: int)
    requires MapMp4(data, CslgMapping(shift)).Success? && (Read(data).Some? ==> FirstStblOk(Read(data).value))
    ensures Read(data).Some? && 0 < Count(Read(data).value, STBL) && CslgBox(shift).Success?
    ensures var nodes, out := Read(data).value, MapMp4(data, CslgMapping(shift)).value;
            var path := FindNth(nodes, STBL, 0);
            && NodeAt(nodes, path).Container?
            && var children := NodeAt(nodes, path).children;
            && FirstOfKind(children, CTTS).Some?
            && var i := FirstOfKind(children, CTTS).value;
            && children[i].Leaf? && |children[i].raw| >= 8
            && var x := Container(STBL, 8, CslgResult(children, i, CslgBox(shift).value));
               var changed := ReplaceAt(nodes, path, x);
            && out == Print(changed) && |out| == |Print(nodes)| + 52
            && (Parse(out) == Some(Narrow(changed)) <==> NoWide(changed))
            && (NoWide(changed) ==> Parse(out) == Some(changed))
  {
    hide Parse, Read, MapMp4, AddCslg, Count, WfNode, WfList, FindNth, NodeAt, ReplaceAt, CslgBox, Delimited, Print,
        CslgResult, Fits, NoWide, Narrow, PrintNode;
    var m := CslgMapping(shift);
    MapMp4Rewrites(data, m, Leaf([], []));
    var nodes := Read(data).value;
    var path := FirstStbl(data);
    var n := NodeAt(nodes, path);
    CslgInsertedExactly(n, shift);
    var i, cslg := FirstOfKind(n.children, CTTS).value, CslgBox(shift).value;
    var x := Container(STBL, 8, CslgResult(n.children, i, cslg));
    ContainersAreDelimited(x);
    MapMp4Rewrites(data, m, x);
    MapMp4ParsesExactly(data, m, x);
    if NoWide(ReplaceAt(nodes, path, x)) {
      NarrowSame(ReplaceAt(nodes, path, x));
    }
  }

  /** The claimed size of the outermost container around a box, or the box's own length. */
  function OutermostSize(nodes: seq<Node>, path: Path): nat
    requires ValidPath(nodes, path)
  {
    var n := nodes[path[0]];
    if |path| == 1 then |PrintNode(n)| else n.header + |Print(n.children)|
  }

  /** All containers above the replaced box fit if the outermost one does. */
  lemma {:induction false} FitsExactly(nodes: seq<Node>, path: Path, x: Node)
    requires ValidPath(nodes, path) && FitsOff(nodes, path)
    ensures Fits(nodes, path, x) <==>
              |path| == 1
              || OutermostSize(nodes, path) + |PrintNode(x)| - |PrintNode(NodeAt(nodes, path))| < 0x1_0000_0000
    decreases |path|
  {
    hide PrintNode, Print, NodeFits;
    if |path| > 1 {
      var n := nodes[path[0]];
      ReplaceGrows(n.children, path[1..], x);
      FitsExactly(n.children, path[1..], x);
      MemberLength(n.children, path[1]);
      if |path| > 2 {
        ContainerLength(n.children[path[1]]);
      }
    }
  }

  lemma ContainerLength(n: Node)
    requires n.Container? && Shaped(n)
    ensures n.header + |Print(n.children)| <= |PrintNode(n)| + 8
  {
    hide Print, BigEndian;
  }

  lemma MemberLength(nodes: seq<Node>, i: nat)
    requires i < |nodes|
    ensures |PrintNode(nodes[i])| <= |Print(nodes)|
  {
    hide PrintNode, Print;
    assert nodes == nodes[..i] + ([nodes[i]] + nodes[i + 1..]);
    PrintConcat(nodes[..i], [nodes[i]] + nodes[i + 1..]);
    PrintConcat([nodes[i]], nodes[i + 1..]);
    PrintOne(nodes[i]);
  }

  lemma {:induction false} OutermostLongest(nodes: seq<Node>, path: Path)
    requires ValidPath(nodes, path) && FitsOff(nodes, path)
    ensures |PrintNode(NodeAt(nodes, path))| <= OutermostSize(nodes, path)
    ensures |path| == 1 ==> OutermostSize(nodes, path) == |PrintNode(NodeAt(nodes, path))|
    decreases |path|
  {
    hide Print, PrintNode, NodeFits;
    if |path| > 1 {
      var n := nodes[path[0]];
      OutermostLongest(n.children, path[1..]);
      MemberLength(n.children, path[1]);
      if |path| > 2 {
        ContainerLength(n.children[path[1]]);
      }
    }
  }

  /**
   `m2-cslg` succeeds if and only if all boxes entered are valid, there is an `stbl`, the first one has a `ctts`, the
   shift is a 64-bit number, the outermost box around that `stbl` stays below 2^32 bytes and no other container is
   too large to be rebuilt.
   */
  lemma M2SucceedsExactly(data: bytes, shift: int)
    requires Read(data).Some? ==> FirstStblOk(Read(data).value)
    ensures MapMp4(data, CslgMapping(shift)).Success? <==>
              && Read(data).Some?
              && var nodes := Read(data).value;
              && 0 < Count(nodes, STBL)
              && -0x8000_0000_0000_0000 <= shift < 0x8000_0000_0000_0000
              && var path := FindNth(nodes, STBL, 0);
              && NodeAt(nodes, path).Container? && FirstOfKind(NodeAt(nodes, path).children, CTTS).Some?
              && FitsOff(nodes, path) && OutermostSize(nodes, path) + 52 < 0x1_0000_0000
  {
    hide Parse, Read, MapMp4, AddCslg, Count, WfNode, WfList, AllFit, FindNth, NodeAt, CslgBox, Print, Fits, FitsOff,
        PrintNode, OutermostSize, Stand;
    var m := CslgMapping(shift);
    MapMp4SucceedsExactly(data, m);
    if Read(data).Some? && 0 < Count(Read(data).value, STBL) {
      var nodes := Read(data).value;
      var path := FirstStbl(data);
      if FitsOff(nodes, path) {
        StblFits(nodes, path, m, shift);
      }
    }
  }

  lemma StblFits(nodes: seq<Node>, path: Path, m: Mapping, shift: int)
    requires ValidPath(nodes, path) && FitsOff(nodes, path) && m == CslgMapping(shift) && IsStbl(NodeAt(nodes, path))
    ensures var n := NodeAt(nodes, path);
            AddCslg(PrintNode(n), shift).Success? && Fits(nodes, path, Stand(m, n)) <==>
              && FirstOfKind(n.children, CTTS).Some?
              && -0x8000_0000_0000_0000 <= shift < 0x8000_0000_0000_0000
              && OutermostSize(nodes, path) + 52 < 0x1_0000_0000
  {
    hide AddCslg, CslgBox, WfNode, WfList, Print, Fits, FitsOff, PrintNode, OutermostSize, NodeAt, Stand, Parse;
    var n := NodeAt(nodes, path);
    AddCslgPrints(n, shift);
    OutermostLongest(nodes, path);
    if AddCslg(PrintNode(n), shift).Success? {
      CslgInsertedExactly(n, shift);
      StandPrints(m, n);
      FitsExactly(nodes, path, Stand(m, n));
    }
  }

  /** The first `stbl` itself and the containers above it grow by the 52 bytes of the new box. */
  lemma M2Grows(data: bytes, shift: int, j: nat)
    requires MapMp4(data, CslgMapping(shift)).Success? && (Read(data).Some? ==> FirstStblOk(Read(data).value))
    ensures Read(data).Some? && 0 < Count(Read(data).value, STBL)
    ensures var nodes := Read(data).value;
            var path := FindNth(nodes, STBL, 0);
            && NodeAt(nodes, path).Container?
            && var children := NodeAt(nodes, path).children;
            && FirstOfKind(children, CTTS).Some? && CslgBox(shift).Success?
            && var i := FirstOfKind(children, CTTS).value;
            && children[i].Leaf? && |children[i].raw| >= 8
            && var changed := ReplaceAt(nodes, path, Container(STBL, 8, CslgResult(children, i, CslgBox(shift).value)));
            && MapMp4(data, CslgMapping(shift)).value == Print(changed)
            && (1 <= j <= |path| ==>
                && ValidPath(nodes, path[..j]) && ValidPath(changed, path[..j])
                && |PrintNode(NodeAt(changed, path[..j]))| == |PrintNode(NodeAt(nodes, path[..j]))| + 52)
  {
    hide Parse, Read, MapMp4, AddCslg, Count, WfNode, WfList, FindNth, CslgBox, PrintNode, NodeAt, ReplaceAt, Print,
        CslgResult, Narrow, NoWide;
    M2AddsOneCslg(data, shift);
    var m, nodes := CslgMapping(shift), Read(data).value;
    var path := FirstStbl(data);
    if 1 <= j <= |path| {
      var n := NodeAt(nodes, path);
      MapMp4Rewrites(data, m, n);
      CslgInsertedExactly(n, shift);
      var i, cslg := FirstOfKind(n.children, CTTS).value, CslgBox(shift).value;
      var x := Container(STBL, 8, CslgResult(n.children, i, cslg));
      NodeAtItself(nodes, path, x);
      assert path[..|path|] == path;
      if j < |path| {
        AncestorsGrow(nodes, path, x, j);
      }
    }
  }

  lemma {:induction false} NodeAtItself(nodes: seq<Node>, path: Path, x: Node)
    requires ValidPath(nodes, path)
    ensures ValidPath(ReplaceAt(nodes, path, x), path) && NodeAt(ReplaceAt(nodes, path, x), path) == x
    decreases |path|
  {
    if |path| > 1 {
      NodeAtItself(nodes[path[0]].children, path[1..], x);
    }
  }

  // ----- A ctts that swallows the new box

  /** An empty `ctts` with a size of 0, which means "to the end". */
  const OPEN_CTTS: bytes := [0, 0, 0, 0] + CTTS

  lemma OpenCtts()
    ensures WfNode(Leaf(CTTS, OPEN_CTTS)) && SizeField(OPEN_CTTS) == 0
  {
    hide FromBigEndian;
    ZerosFirst(OPEN_CTTS[..4], 0);
    assert OPEN_CTTS[4..8] == CTTS;
  }

  /** In an `stbl` with only such a `ctts`, the new box becomes the content of `ctts`. */
  lemma SwallowedCslg(shift: int)
    requires CslgBox(shift).Success?
    ensures var stbl := PrintNode(Container(STBL, 8, [Leaf(CTTS, OPEN_CTTS)]));
            && AddCslg(stbl, shift).Success?
            && Parse(AddCslg(stbl, shift).value)
               == Some([Container(STBL, 8, [Leaf(CTTS, OPEN_CTTS + CslgBox(shift).value)])])
  {
    hide CslgBox, AddCslg, Parse, SizeField, BigEndian, FirstBox;
    var ctts := Leaf(CTTS, OPEN_CTTS);
    var children := [ctts];
    OpenCtts();
    OneIsWf(ctts);
    PrintOne(ctts);
    CslgSucceeds(shift);
    var stbl := Container(STBL, 8, children);
    StblBody(stbl);
    AddCslgPrints(stbl, shift);
    CslgInsertedExactly(stbl, shift);
    assert children[..0] == [];
    assert [] + [Leaf(CTTS, OPEN_CTTS + CslgBox(shift).value)] == [Leaf(CTTS, OPEN_CTTS + CslgBox(shift).value)];
  }

  // ----- Extending the sample descriptions

  function ExtendStsd(box: bytes, entries: bytes): Result<bytes, Error> {
    var count := FromBigEndian(Slice(box, 12, 16));
    if count + 1 >= 0x1_0000_0000 then Failure(OverflowError)
    else
      var body := Slice(box, 8, 12) + BigEndian(count + 1, 4) + Slice(box, 16, |box|) + entries;
      if |body| + 8 >= 0x1_0000_0000 then Failure(StructError) else Success(PrintBox(STSD, body))
  }

  lemma ExtendStsdShape(box: bytes, entries: bytes)
    requires |box| >= 16 && ExtendStsd(box, entries).Success?
    ensures var out := ExtendStsd(box, entries).value;
            && SelfDelimited(out) && FirstBox(out) == Success(Head(STSD, 8, |out|))
            && |out| == |box| + |entries|
            && out[8..12] == box[8..12]
            && FromBigEndian(out[12..16]) == FromBigEndian(box[12..16]) + 1
            && out[16..] == box[16..] + entries
  {
    hide FirstBox, SelfDelimited, FromBigEndian, BigEndian, PrintBox;
    var count := FromBigEndian(box[12..16]);
    assert Slice(box, 12, 16) == box[12..16];
    var head, tail := box[8..12] + BigEndian(count + 1, 4), box[16..] + entries;
    var body := head + tail;
    assert body == Slice(box, 8, 12) + BigEndian(count + 1, 4) + Slice(box, 16, |box|) + entries;
    var out := PrintBox(STSD, body);
    PrintBoxMeans(STSD, body);
    assert out[8..12] == body[0..4] == box[8..12] by {
      Part8(out, body, 0, 4);
    }
    assert out[12..16] == body[4..8] == BigEndian(count + 1, 4) by {
      Part8(out, body, 4, 8);
    }
    assert out[16..] == body[8..] == tail by {
      Part8(out, body, 8, |body|);
    }
    Pow2Of32();
    FromToBigEndian(count + 1, 4);
  }

  lemma Part8(out: bytes, body: bytes, a: nat, b: nat)
    requires |out| == 8 + |body| && out[8..] == body && a <= b <= |body|
    ensures out[8 + a..8 + b] == body[a..b]
  {
    assert out[8..8 + |body|] == body;
    PartOf(out, 8, body, a, b);
  }

  /** The entries a reader finds: a last entry that does not state its own size swallows the new ones. */
  function Joined(before: seq<Node>, added: seq<Node>, entries: bytes): seq<Node>
    requires before != [] && before[|before| - 1].Leaf? ==> |before[|before| - 1].raw| >= 4
  {
    if before == [] || before[|before| - 1].Container? || SizeField(before[|before| - 1].raw) != 0
    then before + added
    else
      var last := before[|before| - 1];
      before[..|before| - 1] + [Leaf(last.kind, last.raw + entries)]
  }

  /**
   A plain `stsd` comes out as one well-formed box with an entry count one higher. Its entries are the old
   ones followed by the new ones exactly if the last old entry states its own size (or there is nothing to join);
   otherwise the new ones become the end of the last old one.
   */
  lemma ExtendStsdAppends(box: bytes, entries: bytes, before: seq<Node>, added: seq<Node>)
    requires |box| >= 16 && ExtendStsd(box, entries).Success?
    requires Parse(box[16..]) == Some(before) && Parse(entries) == Some(added)
    ensures before != [] && before[|before| - 1].Leaf? ==> |before[|before| - 1].raw| >= 4
    ensures var out := ExtendStsd(box, entries).value;
            && |out| >= 16
            && FirstBox(out) == Success(Head([0x73, 0x74, 0x73, 0x64], 8, |out|))
            && out[8..12] == box[8..12]
            && FromBigEndian(out[12..16]) == FromBigEndian(box[12..16]) + 1
            && Parse(out[16..]) == Some(Joined(before, added, entries))
            && (Parse(out[16..]) == Some(before + added)
                <==> before == [] || added == [] || Delimited(before[|before| - 1]))
  {
    hide Parse, FirstBox, ExtendStsd, FromBigEndian, WfList, Print, SizeField, WfNode;
    ExtendStsdShape(box, entries);
    var out := ExtendStsd(box, entries).value;
    ParsePrint(box[16..]);
    ParsePrint(entries);
    LastIsLong(before);
    PrintConcat(before, added);
    if before == [] || Delimited(before[|before| - 1]) {
      WfConcat(before, added);
      PrintParse(before + added);
    } else {
      Swallows(before, entries);
      var all := Joined(before, added, entries);
      PrintParse(all);
      NothingAdded(before, added, entries);
      if added != [] {
        assert |before + added| > |all|;
      }
    }
  }

  lemma LastIsLong(nodes: seq<Node>)
    requires WfList(nodes)
    ensures nodes != [] && nodes[|nodes| - 1].Leaf? ==> |nodes[|nodes| - 1].raw| >= 8
  {
    hide FirstBox;
    if nodes != [] {
      WfMember(nodes, |nodes| - 1);
    }
  }

  lemma NothingAdded(before: seq<Node>, added: seq<Node>, entries: bytes)
    requires before != [] && before[|before| - 1].Leaf? && added == [] ==> Print(added) == entries
    ensures before != [] && before[|before| - 1].Leaf? && added == [] ==>
              var last := before[|before| - 1];
              before[..|before| - 1] + [Leaf(last.kind, last.raw + entries)] == before + added
  {
    if before != [] && before[|before| - 1].Leaf? && added == [] {
      var last := before[|before| - 1];
      assert last.raw + [] == last.raw;
      assert before[..|before| - 1] + [last] == before;
    }
  }
}
