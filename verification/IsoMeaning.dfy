/**
 What the box rewriter and the `m2` fixture do in terms of bytes and of places in the file: the header in numbers, the
 kinds that are entered, the order in which boxes are counted, and the bytes that are added.
 */
module IsoMeaning {
  import opened Bits
  import opened Bytes
  import opened Wrappers
  import opened IsoBoxes
  import opened IsoBoxTree
  import opened IsoBoxEdit
  import opened IsoFixtures

  // ----- Headers

  lemma FourBytes(s: bytes)
    requires |s| == 4
    ensures FromBigEndian(s)
         == 0x100_0000 * (s[0] as int) + 0x1_0000 * (s[1] as int) + 0x100 * (s[2] as int) + (s[3] as int)
  {
    LastByte(s);
    LastByte(s[..3]);
    LastByte(s[..2]);
    LastByte(s[..1]);
    assert s[..3][..2] == s[..2] && s[..2][..1] == s[..1] && s[..1][..0] == [];
  }

  lemma LastByte(s: bytes)
    requires s != []
    ensures FromBigEndian(s) == 256 * FromBigEndian(s[..|s| - 1]) + s[|s| - 1]
    ensures FromBigEndian([]) == 0
  {
  }

  lemma EightBytes(s: bytes)
    requires |s| == 8
    ensures FromBigEndian(s) == 0x1_0000_0000 * FromBigEndian(s[..4]) + FromBigEndian(s[4..])
  {
    var low := s[4..];
    FourBytes(low);
    LastByte(s);
    LastByte(s[..7]);
    LastByte(s[..6]);
    LastByte(s[..5]);
    assert s[..7][..6] == s[..6] && s[..6][..5] == s[..5] && s[..5][..4] == s[..4];
  }

  /** The first 32 bits are the size; 0 stands for the whole region, 1 for the 64 bits behind the kind. */
  lemma HeadMeans(region: bytes)
    requires |region| >= 8
    ensures var short := FromBigEndian(region[..4]);
            && SizeField(region) == short
            && (short == 0 ==> FirstBox(region) == Success(Head(region[4..8], 8, |region|)))
            && (short == 1 && |region| < 16 ==> FirstBox(region) == Failure(ValueError))
            && (short == 1 && |region| >= 16 ==>
                  var long := FromBigEndian(region[8..16]);
                  FirstBox(region) == (if 16 <= long <= |region| then Success(Head(region[4..8], 16, long))
                                       else Failure(ValueError)))
            && (short > 1 ==>
                  FirstBox(region) == (if 8 <= short <= |region| then Success(Head(region[4..8], 8, short))
                                       else Failure(ValueError)))
  {
    hide FromBigEndian;
  }

  /** A box with this header stands at its offset. */
  ghost predicate IsBoxAt(data: bytes, b: Box, end: nat)
    requires end <= |data|
  {
    && b.offset + 8 <= b.payload <= b.end <= end
    && FirstBox(data[b.offset..end]) == Success(Head(b.kind, b.payload - b.offset, b.end - b.offset))
  }

  /** Boxes one behind the other, from `start` to `stop`. */
  ghost predicate Chain(data: bytes, items: seq<Box>, start: nat, stop: nat, end: nat)
    requires end <= |data|
  {
    && (forall i :: 0 <= i < |items| ==> IsBoxAt(data, items[i], end))
    && (items != [] ==> items[0].offset == start)
    && (forall i :: 0 < i < |items| ==> items[i].offset == items[i - 1].end)
    && stop == if items == [] then start else items[|items| - 1].end
  }

  lemma ChainCons(data: bytes, b: Box, rest: seq<Box>, stop: nat, end: nat)
    requires end <= |data| && IsBoxAt(data, b, end) && Chain(data, rest, b.end, stop, end)
    ensures Chain(data, [b] + rest, b.offset, stop, end)
  {
    hide IsBoxAt;
    var items := [b] + rest;
    assert forall i :: 0 < i < |items| ==> items[i] == rest[i - 1];
  }

  /**
   A walk yields the boxes of a region one behind the other. It ends without an exception exactly if fewer than eight
   bytes are left, and otherwise where no box can be read.
   */
  lemma {:induction false} WalkMeans(data: bytes, start: nat, end: nat) returns (stop: nat)
    requires start <= end <= |data|
    ensures start <= stop <= end && Chain(data, WalkBoxes(data, start, end).items, start, stop, end)
    ensures match WalkBoxes(data, start, end).error
            case None => stop + 8 > end
            case Some(e) => stop + 8 <= end && FirstBox(data[stop..end]) == Failure(e)
    decreases end - start
  {
    hide FirstBox, Chain;
    if start + 8 <= end && FirstBox(data[start..end]).Success? {
      var h := FirstBox(data[start..end]).value;
      stop := WalkMeans(data, start + h.size, end);
      ChainCons(data, Box(h.kind, start, start + h.header, start + h.size),
                WalkBoxes(data, start + h.size, end).items, stop, end);
    } else {
      stop := start;
      NoChain(data, start, end);
    }
  }

  lemma NoChain(data: bytes, start: nat, end: nat)
    requires end <= |data|
    ensures Chain(data, [], start, start, end)
  {
  }

  // ----- The tree

  /** The tree of a box: kept as it is, or entered, with the tree of what is behind its header. */
  ghost predicate IsTreeOf(data: bytes, b: Box, n: Option<Node>) {
    && b.offset <= b.payload <= b.end <= |data|
    && if !IsContainer(b.kind) then n == Some(Leaf(b.kind, data[b.offset..b.end]))
       else
         match Read(data[b.payload..b.end])
         case None => n == None
         case Some(children) => n == Some(Container(b.kind, b.payload - b.offset, children))
  }

  ghost predicate AreTreesOf(data: bytes, items: seq<Box>, nodes: seq<Node>) {
    |items| == |nodes| && forall i :: 0 <= i < |items| ==> IsTreeOf(data, items[i], Some(nodes[i]))
  }

  /** Some box that would be entered has no tree inside. */
  ghost predicate SomeBroken(data: bytes, items: seq<Box>) {
    exists i :: 0 <= i < |items| && IsTreeOf(data, items[i], None)
  }

  lemma FirstTree(data: bytes, start: nat)
    requires start + 8 <= |data| && FirstBox(data[start..|data|]).Success?
    ensures var h := FirstBox(data[start..|data|]).value;
            IsTreeOf(data, Box(h.kind, start, start + h.header, start + h.size),
                     ReadBox(data[start..][..h.size], h))
  {
    hide FirstBox, Read, IsContainer;
    var h := FirstBox(data[start..|data|]).value;
    var box := data[start..][..h.size];
    assert box == data[start..start + h.size];
    assert box[h.header..] == data[start + h.header..start + h.size];
  }

  /** A tree for a walk without an exception over boxes that all have one, and none for any other walk. */
  ghost predicate IsTreeOfWalk(data: bytes, w: BoxWalk, r: Option<seq<Node>>) {
    match r
    case None => w.error.Some? || SomeBroken(data, w.items)
    case Some(nodes) => w.error.None? && AreTreesOf(data, w.items, nodes)
  }

  function FirstAndRest(first: Option<Node>, rest: Option<seq<Node>>): Option<seq<Node>> {
    if first.None? || rest.None? then None else Some([first.value] + rest.value)
  }

  lemma TreesCons(data: bytes, b: Box, n: Option<Node>, w: BoxWalk, r: Option<seq<Node>>)
    requires IsTreeOf(data, b, n) && IsTreeOfWalk(data, w, r)
    ensures IsTreeOfWalk(data, Prepend([b], w), FirstAndRest(n, r))
  {
    hide IsTreeOf;
    var items := [b] + w.items;
    assert items[0] == b;
    if r.None? && w.error.None? {
      var i :| 0 <= i < |w.items| && IsTreeOf(data, w.items[i], None);
      assert items[i + 1] == w.items[i];
    }
  }

  lemma TreeStep(region: bytes)
    requires |region| >= 8 && FirstBox(region).Success?
    ensures var h := FirstBox(region).value;
            Read(region) == FirstAndRest(ReadBox(region[..h.size], h), Read(region[h.size..]))
  {
    hide FirstBox, ReadBox;
  }

  /** A region has a tree exactly if its walk ends well and every box that is entered has one; it consists of them. */
  lemma {:induction false} TreeMeans(data: bytes, start: nat)
    requires start <= |data|
    ensures IsTreeOfWalk(data, WalkBoxes(data, start, |data|), Read(data[start..]))
    decreases |data| - start
  {
    hide FirstBox, ReadBox, IsTreeOf, IsTreeOfWalk, FirstAndRest;
    var region := data[start..];
    assert region == data[start..|data|];
    if start + 8 <= |data| && FirstBox(region).Success? {
      var h := FirstBox(region).value;
      FirstTree(data, start);
      TreeStep(region);
      hide Read;
      TreeMeans(data, start + h.size);
      assert region[h.size..] == data[start + h.size..];
      TreesCons(data, Box(h.kind, start, start + h.header, start + h.size), ReadBox(region[..h.size], h),
                WalkBoxes(data, start + h.size, |data|), Read(region[h.size..]));
    } else {
      NoTree(data, WalkBoxes(data, start, |data|));
    }
  }

  lemma NoTree(data: bytes, w: BoxWalk)
    requires w.items == []
    ensures IsTreeOfWalk(data, w, if w.error.None? then Some([]) else None)
  {
  }

  // ----- Which boxes are entered

  /** A box inside another one is found exactly if that is a `moov`, `trak`, `mdia`, `minf` or `stbl`. */
  lemma FiveKindsAreEntered(kind: bytes, m: Mapping)
    requires |kind| == 4 && |m.wanted| == 4 && m.wanted != kind && m.occurrence == 0
    requires forall box :: m.transform(box) == Success(box)
    ensures var data := [0, 0, 0, 16] + kind + [0, 0, 0, 8] + m.wanted;
            MapMp4(data, m)
            == if || kind == [0x6D, 0x6F, 0x6F, 0x76] || kind == [0x74, 0x72, 0x61, 0x6B]
                  || kind == [0x6D, 0x64, 0x69, 0x61] || kind == [0x6D, 0x69, 0x6E, 0x66]
                  || kind == [0x73, 0x74, 0x62, 0x6C]
               then Success(data) else Failure(ValueError)
  {
    SmallHeads(kind, m.wanted);
    SmallContainers(kind, m.wanted);
    hide FirstBox, SizeField, PrintContainer;
    var inside := [0, 0, 0, 8] + m.wanted;
    var data := [0, 0, 0, 16] + kind + inside;
    assert inside[..8] == inside && inside[8..] == [] && inside + [] == inside;
    assert data[..16] == data && data[16..] == [] && data + [] == data;
    assert Visit([], m, 0) == Success(([], 0)) && Visit([], m, 1) == Success(([], 1));
    assert VisitBox(inside, Head(m.wanted, 8, 8), m, 0) == Success((inside, 1));
    assert Visit(inside, m, 0) == Success((inside, 1));
    assert VisitBox(data, Head(kind, 8, 16), m, 0)
        == Success((data, if IsContainer(kind) then 1 else 0));
  }

  lemma SmallContainers(kind: bytes, wanted: bytes)
    ensures PrintContainer(wanted, 8, []) == [0, 0, 0, 8] + wanted
    ensures |wanted| == 4 ==>
              PrintContainer(kind, 8, [0, 0, 0, 8] + wanted) == [0, 0, 0, 16] + kind + ([0, 0, 0, 8] + wanted)
  {
    LowByte(8);
    LowByte(16);
  }

  lemma LowByte(v: byte)
    ensures BigEndian(v, 4) == [0, 0, 0, v]
  {
    hide BigEndian, FromBigEndian;
    FourBytes([0, 0, 0, v]);
    ToFromBigEndian([0, 0, 0, v]);
  }

  lemma SmallHeads(kind: bytes, wanted: bytes)
    requires |kind| == 4 && |wanted| == 4
    ensures var inside := [0, 0, 0, 8] + wanted;
            var region := [0, 0, 0, 16] + kind + inside;
            && region == [0, 0, 0, 16] + kind + [0, 0, 0, 8] + wanted && region[8..] == inside
            && SizeField(inside) == 8 && FirstBox(inside) == Success(Head(wanted, 8, 8))
            && SizeField(region) == 16 && FirstBox(region) == Success(Head(kind, 8, 16))
  {
    var inside := [0, 0, 0, 8] + wanted;
    var region := [0, 0, 0, 16] + kind + inside;
    FourBytes(inside[..4]);
    FourBytes(region[..4]);
    HeadMeans(inside);
    HeadMeans(region);
    assert inside[4..8] == wanted && region[4..8] == kind;
  }

  // ----- Places in the tree

  /** One step down: the node at `p + [i]` is child `i` of the node at `p`. */
  lemma {:induction false} PlacesMean(nodes: seq<Node>, p: Path, i: nat)
    ensures ValidPath(nodes, [i]) <==> i < |nodes|
    ensures i < |nodes| ==> NodeAt(nodes, [i]) == nodes[i]
    ensures p != [] ==>
              (ValidPath(nodes, p + [i])
               <==> ValidPath(nodes, p) && NodeAt(nodes, p).Container? && i < |NodeAt(nodes, p).children|)
    ensures p != [] && ValidPath(nodes, p + [i]) ==> NodeAt(nodes, p + [i]) == NodeAt(nodes, p).children[i]
    decreases |p|
  {
    if |p| > 0 && p[0] < |nodes| {
      assert (p + [i])[1..] == p[1..] + [i];
      if |p| > 1 {
        if nodes[p[0]].Container? {
          PlacesMean(nodes[p[0]].children, p[1..], i);
        }
      } else {
        assert p[1..] + [i] == [i] && p == [p[0]];
      }
    }
  }

  /** The containers above a replaced node keep their kinds, their headers and the number of their children. */
  lemma {:induction false} AncestorsStay(nodes: seq<Node>, path: Path, x: Node, j: nat)
    requires ValidPath(nodes, path) && 1 <= j < |path|
    ensures |ReplaceAt(nodes, path, x)| == |nodes|
    ensures ValidPath(nodes, path[..j]) && ValidPath(ReplaceAt(nodes, path, x), path[..j])
    ensures var before, after := NodeAt(nodes, path[..j]), NodeAt(ReplaceAt(nodes, path, x), path[..j]);
            && before.Container? && after.Container? && after.kind == before.kind && after.header == before.header
            && |after.children| == |before.children|
    decreases j
  {
    var n := nodes[path[0]];
    if j > 1 {
      AncestorsStay(n.children, path[1..], x, j - 1);
      assert path[..j][1..] == path[1..][..j - 1];
    }
  }

  // ----- The order in which boxes are counted

  /** `p` is counted before `q`: it lies below `q`, or further left where their ways part. */
  ghost predicate CountedBefore(p: Path, q: Path) {
    exists n :: && 0 <= n <= |p| && n <= |q| && p[..n] == q[..n]
                && ((n == |q| && n < |p|) || (n < |p| && n < |q| && p[n] < q[n]))
  }

  lemma LeftFirst(p: Path, q: Path)
    requires p != [] && q != [] && p[0] < q[0]
    ensures CountedBefore(p, q)
  {
    assert p[..0] == q[..0];
  }

  lemma BelowFirst(p: Path, q: Path)
    requires |p| > |q| && p[..|q|] == q
    ensures CountedBefore(p, q)
  {
    assert p[..|q|] == q[..|q|];
  }

  lemma SameStart(a: Path, b: Path, x: nat)
    requires CountedBefore(a, b)
    ensures CountedBefore([x] + a, [x] + b)
  {
    var n :| && 0 <= n <= |a| && n <= |b| && a[..n] == b[..n]
             && ((n == |b| && n < |a|) || (n < |a| && n < |b| && a[n] < b[n]));
    var p, q := [x] + a, [x] + b;
    assert p[..n + 1] == [x] + a[..n] && q[..n + 1] == [x] + b[..n];
  }

  /** Boxes are found in the order of their numbers. */
  lemma {:induction false} FoundInOrder(nodes: seq<Node>, wanted: bytes, j: nat, k: nat)
    requires j < k < Count(nodes, wanted)
    ensures CountedBefore(FindNth(nodes, wanted, j), FindNth(nodes, wanted, k))
    decreases nodes
  {
    hide CountedBefore, FindNth, CountNode;
    var n, rest := nodes[0], nodes[1..];
    var first, inside := CountNode(n, wanted), if n.Container? then Count(n.children, wanted) else 0;
    assert nodes == [n] + rest;
    CountsInside(n, wanted);
    if j >= first {
      FindInRest(n, rest, wanted, j);
      FindInRest(n, rest, wanted, k);
      FoundInOrder(rest, wanted, j - first, k - first);
      ShiftedBefore(FindNth(rest, wanted, j - first), FindNth(rest, wanted, k - first));
    } else {
      FindInFirst(n, rest, wanted, j);
      if k >= first {
        FindInRest(n, rest, wanted, k);
        LeftFirst(FindNth(nodes, wanted, j), FindNth(nodes, wanted, k));
      } else {
        FindInFirst(n, rest, wanted, k);
        FindInside(n, wanted, j);
        var a := FindNth(n.children, wanted, j);
        if k < inside {
          FindInside(n, wanted, k);
          FoundInOrder(n.children, wanted, j, k);
          SameStart(a, FindNth(n.children, wanted, k), 0);
        } else {
          FindItself(n, wanted);
          BelowFirst([0] + a, [0]);
        }
      }
    }
  }

  lemma CountsInside(n: Node, wanted: bytes)
    ensures var inside := if n.Container? then Count(n.children, wanted) else 0;
            CountNode(n, wanted) == inside + if n.kind == wanted then 1 else 0
  {
  }

  lemma ShiftedBefore(p: Path, q: Path)
    requires p != [] && q != [] && CountedBefore(p, q)
    ensures CountedBefore(Shift(p), Shift(q))
  {
    var n :| && 0 <= n <= |p| && n <= |q| && p[..n] == q[..n]
             && ((n == |q| && n < |p|) || (n < |p| && n < |q| && p[n] < q[n]));
    var a, b := Shift(p), Shift(q);
    if n > 0 {
      assert p[0] == p[..n][0] == q[..n][0] == q[0];
      forall i | 0 <= i < n
        ensures a[i] == b[i]
      {
        assert p[..n][i] == q[..n][i];
      }
    }
    assert a[..n] == b[..n];
  }

  /** Every box of the wanted kind is found under some number. */
  lemma {:induction false} EveryBoxIsFound(nodes: seq<Node>, wanted: bytes, path: Path) returns (k: nat)
    requires ValidPath(nodes, path) && NodeAt(nodes, path).kind == wanted
    ensures k < Count(nodes, wanted) && FindNth(nodes, wanted, k) == path
    decreases nodes, |path|
  {
    if path[0] > 0 {
      var p := UnshiftPath(nodes, path);
      ShiftedPath(nodes, p);
      var later := EveryBoxIsFound(nodes[1..], wanted, p);
      k := CountNode(nodes[0], wanted) + later;
    } else if |path| > 1 {
      k := EveryBoxIsFound(nodes[0].children, wanted, path[1..]);
      assert path == [0] + path[1..];
    } else {
      k := if nodes[0].Container? then Count(nodes[0].children, wanted) else 0;
      assert path == [0];
    }
  }

  // ----- The new box

  /** The 52 bytes: size, `cslg`, version 1, no flags, the shift twice in two's complement, and three zeros. */
  lemma CslgBytes(shift: int)
    ensures CslgBox(shift).Success? <==> -0x8000_0000_0000_0000 <= shift < 0x8000_0000_0000_0000
    ensures CslgBox(shift).Success? ==>
              var b := CslgBox(shift).value;
              && |b| == 52 && b[..12] == [0, 0, 0, 52, 0x63, 0x73, 0x6C, 0x67, 1, 0, 0, 0]
              && b[12..20] == b[20..28] && (forall k :: 28 <= k < 52 ==> b[k] == 0)
              && (if shift < 0 then shift + 0x1_0000_0000_0000_0000 else shift)
                 == 0x1_0000_0000 * FromBigEndian(b[12..16]) + FromBigEndian(b[16..20])
  {
    hide BigEndian, FromBigEndian;
    PackRoundTrip(shift);
    if CslgBox(shift).Success? {
      var b, s := CslgBox(shift).value, PackInt64(shift).value;
      LowByte(52);
      assert b[12..20] == s && b[20..28] == s && b[28..] == Zeros(24);
      PackedEight(shift);
      EightBytes(s);
      assert s[..4] == b[12..16] && s[4..] == b[16..20];
      assert b[..12] == [0, 0, 0, 52] + CSLG + [1] + Zeros(3);
    }
  }

  lemma PackedEight(v: int)
    requires PackInt64(v).Success?
    ensures FromBigEndian(PackInt64(v).value) == if v < 0 then v + 0x1_0000_0000_0000_0000 else v
  {
    hide BigEndian, FromBigEndian;
    Pow2Of32();
    Pow2Add(32, 32);
    FromToBigEndian(if v < 0 then v + 0x1_0000_0000_0000_0000 else v, 8);
  }

  // ----- The m2 fixture

  /**
   What `m2-cslg` prints: the tree with the first `stbl`, at `path`, holding the new box behind its first `ctts`, its
   child number `i`. If that box does not state its size, the new one is read as its end.
   */
  lemma M2Means(data: bytes, shift: int) returns (path: Path, i: nat, cslg: bytes, after: seq<Node>)
    requires MapMp4(data, CslgMapping(shift)).Success? && (Read(data).Some? ==> FirstStblOk(Read(data).value))
    ensures Read(data).Some? && CslgBox(shift) == Success(cslg)
    ensures var nodes := Read(data).value;
            && ValidPath(nodes, path) && NodeAt(nodes, path).Container?
            && NodeAt(nodes, path).kind == [0x73, 0x74, 0x62, 0x6C]
            && (forall q :: ValidPath(nodes, q) && NodeAt(nodes, q).kind == [0x73, 0x74, 0x62, 0x6C] && q != path ==>
                  CountedBefore(path, q))
            && MapMp4(data, CslgMapping(shift)).value
               == Print(ReplaceAt(nodes, path, Container([0x73, 0x74, 0x62, 0x6C], 8, after)))
    ensures var children := NodeAt(Read(data).value, path).children;
            && i < |children| && children[i].Leaf? && |children[i].raw| >= 8
            && children[i].kind == [0x63, 0x74, 0x74, 0x73]
            && (forall j :: 0 <= j < i ==> children[j].kind != [0x63, 0x74, 0x74, 0x73])
            && after == (if FromBigEndian(children[i].raw[..4]) != 0
                         then children[..i + 1] + [Leaf([0x63, 0x73, 0x6C, 0x67], cslg)] + children[i + 1..]
                         else children[..i] + [Leaf([0x63, 0x74, 0x74, 0x73], children[i].raw + cslg)])
  {
    hide Read, MapMp4, Parse, FindNth, NodeAt, ReplaceAt, Print, Count, CslgBox, WfList, Narrow, NoWide, ValidPath,
        CountedBefore;
    M2AddsOneCslg(data, shift);
    var nodes := Read(data).value;
    path, cslg := FindNth(nodes, STBL, 0), CslgBox(shift).value;
    var children := NodeAt(nodes, path).children;
    i := FirstOfKind(children, CTTS).value;
    after := CslgResult(children, i, cslg);
    forall q | ValidPath(nodes, q) && NodeAt(nodes, q).kind == [0x73, 0x74, 0x62, 0x6C] && q != path
      ensures CountedBefore(path, q)
    {
      var k := EveryBoxIsFound(nodes, STBL, q);
      if k > 0 {
        FoundInOrder(nodes, STBL, 0, k);
      }
    }
  }
}
