/**
 What the box rewriter does to the box tree: it replaces one node, found in post-order, and nothing
 else. Also when it fails to do so.
 */
module IsoBoxEdit {
  import opened Bytes
  import opened Wrappers
  import opened IsoBoxes
  import opened IsoBoxTree

  // ----- Places in the tree

  /** A position among the siblings, then one among the children of that node, and so on. */
  type Path = seq<nat>

  ghost predicate ValidPath(nodes: seq<Node>, path: Path)
    decreases |path|
  {
    && path != [] && path[0] < |nodes|
    && (|path| > 1 ==> nodes[path[0]].Container? && ValidPath(nodes[path[0]].children, path[1..]))
  }

  function NodeAt(nodes: seq<Node>, path: Path): Node
    requires ValidPath(nodes, path)
    decreases |path|
  {
    if |path| == 1 then nodes[path[0]] else NodeAt(nodes[path[0]].children, path[1..])
  }

  function ReplaceAt(nodes: seq<Node>, path: Path, x: Node): seq<Node>
    requires ValidPath(nodes, path)
    decreases |path|
  {
    nodes[path[0] :=
      if |path| == 1 then x
      else
        Container(nodes[path[0]].kind, nodes[path[0]].header, ReplaceAt(nodes[path[0]].children, path[1..], x))]
  }

  /** How many boxes of the wanted kind the tree has. */
  function Count(nodes: seq<Node>, wanted: bytes): nat {
    if nodes == [] then 0 else CountNode(nodes[0], wanted) + Count(nodes[1..], wanted)
  }

  function CountNode(n: Node, wanted: bytes): nat {
    (if n.Container? then Count(n.children, wanted) else 0) + (if n.kind == wanted then 1 else 0)
  }

  function Shift(path: Path): Path
    requires path != []
  {
    path[0 := path[0] + 1]
  }

  /** The `k`-th box of the wanted kind, counted left to right with children before their container. */
  function FindNth(nodes: seq<Node>, wanted: bytes, k: nat): (path: Path)
    requires k < Count(nodes, wanted)
    ensures ValidPath(nodes, path) && NodeAt(nodes, path).kind == wanted
    decreases nodes
  {
    var inFirst := CountNode(nodes[0], wanted);
    if k >= inFirst then
      var p := FindNth(nodes[1..], wanted, k - inFirst);
      ShiftedPath(nodes, p);
      Shift(p)
    else if nodes[0].Container? && k < Count(nodes[0].children, wanted) then
      var p := FindNth(nodes[0].children, wanted, k);
      assert ([0] + p)[1..] == p;
      [0] + p
    else [0]
  }

  /** A path among the later siblings, counted from the first sibling. */
  lemma ShiftedPath(nodes: seq<Node>, p: Path)
    requires nodes != [] && ValidPath(nodes[1..], p)
    ensures ValidPath(nodes, Shift(p)) && NodeAt(nodes, Shift(p)) == NodeAt(nodes[1..], p)
    ensures forall x: Node :: ReplaceAt(nodes, Shift(p), x) == [nodes[0]] + ReplaceAt(nodes[1..], p, x)
  {
    assert Shift(p)[1..] == p[1..];
    forall x: Node
      ensures ReplaceAt(nodes, Shift(p), x) == [nodes[0]] + ReplaceAt(nodes[1..], p, x)
    {
      assert nodes == [nodes[0]] + nodes[1..];
    }
  }

  // ----- The rewriter replaces one node of the tree

  /** The node `x` stands for what the transform makes of the box at `path`. */
  ghost predicate Transforms(m: Mapping, nodes: seq<Node>, path: Path, x: Node)
    requires ValidPath(nodes, path)
  {
    m.transform(PrintNode(NodeAt(nodes, path))) == Success(PrintNode(x))
  }

  /** Every container above the replaced node can be given a 32-bit size. */
  ghost predicate Fits(nodes: seq<Node>, path: Path, x: Node)
    requires ValidPath(nodes, path)
    decreases |path|
  {
    |path| == 1
    || (nodes[path[0]].header + |Print(ReplaceAt(nodes[path[0]].children, path[1..], x))| < 0x1_0000_0000
        && Fits(nodes[path[0]].children, path[1..], x))
  }

  /** The outcome of visiting a region, as a statement about its tree. */
  ghost predicate Rewrites(nodes: seq<Node>, m: Mapping, seen: nat, out: bytes, x: Node) {
    var n := Count(nodes, m.wanted);
    if seen <= m.occurrence < seen + n then
      var path := FindNth(nodes, m.wanted, m.occurrence - seen);
      && m.transform(PrintNode(NodeAt(nodes, path))).Success?
      && (Transforms(m, nodes, path, x) ==> out == Print(ReplaceAt(nodes, path, x)) && Fits(nodes, path, x))
    else out == Print(nodes)
  }

  /**
   Visiting any region: if it succeeds, the region has a tree, its wanted boxes were counted, and the tree is
   printed with the chosen one replaced.
   */
  lemma {:induction false} VisitMeans(region: bytes, m: Mapping, seen: nat, x: Node)
    requires Visit(region, m, seen).Success?
    ensures Read(region).Some?
    ensures var v, nodes := Visit(region, m, seen).value, Read(region).value;
            v.1 == seen + Count(nodes, m.wanted) && Rewrites(nodes, m, seen, v.0, x)
    decreases |region|, 1
  {
    hide FirstBox, ReadBox, VisitBox, Rewrites, CountNode;
    if |region| < 8 {
      NothingToRewrite(m, seen, x);
    } else {
      var h := FirstBox(region).value;
      var box, tail := region[..h.size], region[h.size..];
      CutFirst(region);
      VisitBoxMeans(box, h, m, seen, x);
      var first := VisitBox(box, h, m, seen).value;
      VisitMeans(tail, m, first.1, x);
      RewritesCons(ReadBox(box, h).value, Read(tail).value, m, seen, first.0, Visit(tail, m, first.1).value.0, x);
    }
  }

  lemma NothingToRewrite(m: Mapping, seen: nat, x: Node)
    ensures Rewrites([], m, seen, [], x)
  {
  }

  /** Rewriting a first node and then its siblings. */
  lemma RewritesCons(n: Node, rest: seq<Node>, m: Mapping, seen: nat, first: bytes, others: bytes, x: Node)
    requires Rewrites([n], m, seen, first, x)
    requires Rewrites(rest, m, seen + CountNode(n, m.wanted), others, x)
    ensures Count([n] + rest, m.wanted) == CountNode(n, m.wanted) + Count(rest, m.wanted)
    ensures Rewrites([n] + rest, m, seen, first + others, x)
  {
    hide PrintNode, CountNode, FindNth, NodeAt, ReplaceAt, Fits;
    var all, one := [n] + rest, CountNode(n, m.wanted);
    assert all[1..] == rest && [n][1..] == [];
    assert Count([n], m.wanted) == one;
    PrintOne(n);
    if seen <= m.occurrence < seen + one {
      var k := m.occurrence - seen;
      FindInFirst(n, rest, m.wanted, k);
      ReplaceInFirst(n, rest, FindNth([n], m.wanted, k), x);
    } else if seen + one <= m.occurrence < seen + one + Count(rest, m.wanted) {
      FindInRest(n, rest, m.wanted, m.occurrence - seen);
      ReplaceInRest(n, rest, FindNth(rest, m.wanted, m.occurrence - seen - one), x);
    }
  }

  lemma FindInRest(n: Node, rest: seq<Node>, wanted: bytes, k: nat)
    requires CountNode(n, wanted) <= k < CountNode(n, wanted) + Count(rest, wanted)
    ensures k < Count([n] + rest, wanted)
    ensures FindNth([n] + rest, wanted, k) == Shift(FindNth(rest, wanted, k - CountNode(n, wanted)))
  {
    hide CountNode;
    assert ([n] + rest)[1..] == rest;
  }

  lemma ReplaceInRest(n: Node, rest: seq<Node>, p: Path, x: Node)
    requires ValidPath(rest, p)
    ensures ValidPath([n] + rest, Shift(p)) && NodeAt([n] + rest, Shift(p)) == NodeAt(rest, p)
    ensures Print(ReplaceAt([n] + rest, Shift(p), x)) == PrintNode(n) + Print(ReplaceAt(rest, p, x))
    ensures Fits([n] + rest, Shift(p), x) <==> Fits(rest, p, x)
  {
    hide PrintNode, NodeAt, ReplaceAt, Fits;
    var all := [n] + rest;
    assert all[1..] == rest;
    ShiftedPath(all, p);
    ShiftedFits(all, p, x);
    var later := ReplaceAt(rest, p, x);
    assert ([n] + later)[1..] == later;
  }

  lemma PrintOne(n: Node)
    ensures Print([n]) == PrintNode(n)
  {
    hide PrintNode;
    assert [n][1..] == [];
    assert Print([n][1..]) == [];
  }

  lemma FindInFirst(n: Node, rest: seq<Node>, wanted: bytes, k: nat)
    requires k < CountNode(n, wanted)
    ensures Count([n], wanted) == CountNode(n, wanted) && k < Count([n] + rest, wanted)
    ensures FindNth([n] + rest, wanted, k) == FindNth([n], wanted, k)
    ensures FindNth([n], wanted, k)[0] == 0
  {
    hide CountNode;
    assert ([n] + rest)[1..] == rest && [n][1..] == [];
    assert Count([n], wanted) == CountNode(n, wanted) + Count([], wanted);
  }

  lemma ReplaceInFirst(n: Node, rest: seq<Node>, path: Path, x: Node)
    requires ValidPath([n], path)
    ensures ValidPath([n] + rest, path) && NodeAt([n] + rest, path) == NodeAt([n], path)
    ensures ReplaceAt([n] + rest, path, x) == ReplaceAt([n], path, x) + rest
    ensures Print(ReplaceAt([n] + rest, path, x)) == Print(ReplaceAt([n], path, x)) + Print(rest)
    ensures Fits([n] + rest, path, x) <==> Fits([n], path, x)
  {
    hide PrintNode;
    var one := ReplaceAt([n], path, x);
    assert ReplaceAt([n] + rest, path, x) == one + rest;
    assert (one + rest)[1..] == rest && one[1..] == [];
    assert one == [one[0]];
    PrintOne(one[0]);
  }

  lemma ShiftedFits(nodes: seq<Node>, p: Path, x: Node)
    requires nodes != [] && ValidPath(nodes[1..], p)
    ensures ValidPath(nodes, Shift(p)) && (Fits(nodes, Shift(p), x) <==> Fits(nodes[1..], p, x))
  {
    ShiftedPath(nodes, p);
    assert Shift(p)[1..] == p[1..];
  }

  lemma {:induction false} VisitBoxMeans(box: bytes, h: Head, m: Mapping, seen: nat, x: Node)
    requires |box| >= 8 && FirstBox(box) == Success(h) && h.size == |box| && VisitBox(box, h, m, seen).Success?
    ensures ReadBox(box, h).Some?
    ensures var v, n := VisitBox(box, h, m, seen).value, ReadBox(box, h).value;
            v.1 == seen + CountNode(n, m.wanted) && Rewrites([n], m, seen, v.0, x)
    decreases |box|, 0
  {
    hide FirstBox, Rewrites, SizeField, Visit, Read, PrintContainer;
    if IsContainer(h.kind) {
      var body := box[h.header..];
      VisitMeans(body, m, seen, x);
      var inner := Visit(body, m, seen).value;
      ContainerRewrites(h.kind, h.header, Read(body).value, m, seen, inner.0, VisitBox(box, h, m, seen).value.0, x);
    } else {
      LeafRewrites(ReadBox(box, h).value, m, seen, VisitBox(box, h, m, seen).value.0, x);
    }
  }

  lemma LeafRewrites(n: Node, m: Mapping, seen: nat, out: bytes, x: Node)
    requires n.Leaf? && Choose(m, n.kind, n.raw, seen).Success? && Choose(m, n.kind, n.raw, seen).value.0 == out
    ensures Rewrites([n], m, seen, out, x)
  {
    CountOne(n, m.wanted);
    PrintOne(n);
    PrintOne(x);
    assert [n][0 := x] == [x];
  }

  /** Rebuilding a container around its rewritten children, and then choosing whether to replace it. */
  lemma ContainerRewrites(kind: bytes, header: nat, children: seq<Node>, m: Mapping, seen: nat, body: bytes,
      out: bytes, x: Node)
    requires Rewrites(children, m, seen, body, x) && header + |body| < 0x1_0000_0000
    requires var c := Choose(m, kind, PrintContainer(kind, header, body), seen + Count(children, m.wanted));
             c.Success? && c.value.0 == out
    ensures Rewrites([Container(kind, header, children)], m, seen, out, x)
  {
    hide PrintContainer, NodeAt, ReplaceAt, Fits, FindNth;
    var n, count := Container(kind, header, children), Count(children, m.wanted);
    CountOne(n, m.wanted);
    PrintOne(n);
    if seen <= m.occurrence < seen + count {
      FindInside(n, m.wanted, m.occurrence - seen);
      ReplaceInside(n, FindNth(children, m.wanted, m.occurrence - seen), x);
    } else if m.occurrence == seen + count && kind == m.wanted {
      FindItself(n, m.wanted);
      ReplaceItself(n, x);
    }
  }

  lemma CountOne(n: Node, wanted: bytes)
    ensures Count([n], wanted) == CountNode(n, wanted)
  {
    hide CountNode;
    assert [n][1..] == [];
    assert Count([n], wanted) == CountNode(n, wanted) + Count([], wanted);
  }

  lemma FindInside(n: Node, wanted: bytes, k: nat)
    requires n.Container? && k < Count(n.children, wanted)
    ensures k < Count([n], wanted) && FindNth([n], wanted, k) == [0] + FindNth(n.children, wanted, k)
  {
  }

  lemma FindItself(n: Node, wanted: bytes)
    requires n.Container? && n.kind == wanted
    ensures Count(n.children, wanted) < Count([n], wanted)
    ensures FindNth([n], wanted, Count(n.children, wanted)) == [0]
  {
  }

  lemma ReplaceInside(n: Node, p: Path, x: Node)
    requires n.Container? && ValidPath(n.children, p)
    ensures ValidPath([n], [0] + p) && NodeAt([n], [0] + p) == NodeAt(n.children, p)
    ensures Print(ReplaceAt([n], [0] + p, x)) == PrintContainer(n.kind, n.header, Print(ReplaceAt(n.children, p, x)))
    ensures Fits([n], [0] + p, x)
       <==> n.header + |Print(ReplaceAt(n.children, p, x))| < 0x1_0000_0000 && Fits(n.children, p, x)
  {
    hide PrintContainer;
    assert ([0] + p)[1..] == p;
    var changed := Container(n.kind, n.header, ReplaceAt(n.children, p, x));
    assert ReplaceAt([n], [0] + p, x) == [changed];
    PrintOne(changed);
  }

  lemma ReplaceItself(n: Node, x: Node)
    ensures ValidPath([n], [0]) && NodeAt([n], [0]) == n && Fits([n], [0], x)
    ensures Print(ReplaceAt([n], [0], x)) == PrintNode(x)
  {
    hide PrintNode;
    assert ReplaceAt([n], [0], x) == [x];
    PrintOne(x);
  }

  // ----- The output is a well-formed tree again

  lemma UnshiftPath(nodes: seq<Node>, path: Path) returns (p: Path)
    requires ValidPath(nodes, path) && path[0] > 0
    ensures ValidPath(nodes[1..], p) && Shift(p) == path && |p| == |path| && p[0] < path[0]
  {
    p := path[0 := path[0] - 1];
    assert p[1..] == path[1..];
  }

  lemma {:induction false} ReplaceWf(nodes: seq<Node>, path: Path, x: Node)
    requires WfList(nodes) && ValidPath(nodes, path) && Fits(nodes, path, x)
    requires WfNode(x) && Delimited(x)
    ensures WfList(ReplaceAt(nodes, path, x))
    decreases |path|, path[0]
  {
    hide Delimited;
    var rest := nodes[1..];
    if path[0] > 0 {
      var p := UnshiftPath(nodes, path);
      ShiftedPath(nodes, p);
      ShiftedFits(nodes, p, x);
      ReplaceWf(rest, p, x);
      Cons(nodes[0], ReplaceAt(rest, p, x));
    } else if |path| == 1 {
      assert ReplaceAt(nodes, path, x) == [x] + rest;
      Cons(x, rest);
    } else {
      var children := nodes[0].children;
      ReplaceWf(children, path[1..], x);
      var changed := Container(nodes[0].kind, nodes[0].header, ReplaceAt(children, path[1..], x));
      assert ReplaceAt(nodes, path, x) == [changed] + rest;
      ContainersAreDelimited(changed);
      Cons(changed, rest);
    }
  }

  lemma ContainersAreDelimited(n: Node)
    requires n.Container?
    ensures Delimited(n)
  {
  }

  /** The region grows by what the replaced node grows. */
  lemma {:induction false} ReplaceGrows(nodes: seq<Node>, path: Path, x: Node)
    requires ValidPath(nodes, path)
    ensures |Print(ReplaceAt(nodes, path, x))|
         == |Print(nodes)| + |PrintNode(x)| - |PrintNode(NodeAt(nodes, path))|
    decreases |path|, path[0], 0
  {
    hide PrintNode;
    var rest := nodes[1..];
    var all := ReplaceAt(nodes, path, x);
    if path[0] > 0 {
      var p := UnshiftPath(nodes, path);
      ShiftedPath(nodes, p);
      ReplaceGrows(rest, p, x);
      assert all[1..] == ReplaceAt(rest, p, x);
    } else {
      assert all[1..] == rest;
      if |path| > 1 {
        NodeGrows(nodes[0], path[1..], x);
      }
    }
  }

  /** A container grows by what the replaced node inside it grows. */
  lemma {:induction false} NodeGrows(n: Node, path: Path, x: Node)
    requires n.Container? && ValidPath(n.children, path)
    ensures |PrintNode(Container(n.kind, n.header, ReplaceAt(n.children, path, x)))|
         == |PrintNode(n)| + |PrintNode(x)| - |PrintNode(NodeAt(n.children, path))|
    decreases |path|, path[0], 1
  {
    ReplaceGrows(n.children, path, x);
  }

  /** Every container above the replaced node grows by exactly as much. */
  lemma {:induction false} AncestorsGrow(nodes: seq<Node>, path: Path, x: Node, j: nat)
    requires ValidPath(nodes, path) && 1 <= j < |path|
    ensures ValidPath(nodes, path[..j]) && ValidPath(ReplaceAt(nodes, path, x), path[..j])
    ensures NodeAt(nodes, path[..j]).Container?
    ensures |PrintNode(NodeAt(ReplaceAt(nodes, path, x), path[..j]))|
         == |PrintNode(NodeAt(nodes, path[..j]))| + |PrintNode(x)| - |PrintNode(NodeAt(nodes, path))|
    decreases j
  {
    hide PrintNode;
    var n := nodes[path[0]];
    if j == 1 {
      NodeGrows(n, path[1..], x);
    } else {
      AncestorsGrow(n.children, path[1..], x, j - 1);
      assert path[..j][1..] == path[1..][..j - 1];
    }
  }

  /** Every node that is neither above nor below the replaced one stays where it is and as it is. */
  lemma {:induction false} OthersStay(nodes: seq<Node>, path: Path, x: Node, q: Path)
    requires ValidPath(nodes, path) && ValidPath(nodes, q) && !(q <= path) && !(path <= q)
    ensures ValidPath(ReplaceAt(nodes, path, x), q) && NodeAt(ReplaceAt(nodes, path, x), q) == NodeAt(nodes, q)
    decreases |path|
  {
    if q[0] == path[0] {
      assert q == [q[0]] + q[1..] && path == [path[0]] + path[1..];
      OthersStay(nodes[path[0]].children, path[1..], x, q[1..]);
    }
  }

  /**
   The rewriter on any file: success means that the file has a tree, that the wanted box exists and that it could be
   transformed. If `x` stands for the transform's result, the output is the tree printed with that one box replaced by
   `x`. If moreover the tree and `x` are well-formed, the output parses to that tree.
   */
  lemma MapMp4Rewrites(data: bytes, m: Mapping, x: Node)
    requires MapMp4(data, m).Success?
    ensures Read(data).Some?
    ensures var nodes, out := Read(data).value, MapMp4(data, m).value;
            && m.occurrence < Count(nodes, m.wanted)
            && var path := FindNth(nodes, m.wanted, m.occurrence);
            && m.transform(PrintNode(NodeAt(nodes, path))).Success?
            && (Transforms(m, nodes, path, x) ==>
                  && out == Print(ReplaceAt(nodes, path, x)) && Fits(nodes, path, x)
                  && |out| == |Print(nodes)| + |PrintNode(x)| - |PrintNode(NodeAt(nodes, path))|
                  && (WfList(nodes) && WfNode(x) && Delimited(x) ==> Parse(out) == Some(ReplaceAt(nodes, path, x))))
  {
    hide Parse, Read, Visit, FindNth, NodeAt, ReplaceAt, WfNode, WfList, Delimited, PrintNode, Print, Count, Fits;
    VisitMeans(data, m, 0, x);
    var nodes := Read(data).value;
    var path := FindNth(nodes, m.wanted, m.occurrence);
    if Transforms(m, nodes, path, x) {
      ReplaceGrows(nodes, path, x);
      if WfList(nodes) && WfNode(x) && Delimited(x) {
        ReplaceWf(nodes, path, x);
        PrintParse(ReplaceAt(nodes, path, x));
      }
    }
  }

  // ----- When the rewriter succeeds

  /** Every container can be printed with a 32-bit size that counts its old header. */
  ghost predicate AllFit(nodes: seq<Node>) {
    nodes == [] || (NodeFits(nodes[0]) && AllFit(nodes[1..]))
  }

  ghost predicate NodeFits(n: Node) {
    n.Container? ==>
      && IsContainer(n.kind) && (n.header == 8 || n.header == 16)
      && n.header + |Print(n.children)| < 0x1_0000_0000 && AllFit(n.children)
  }

  lemma {:induction false} WfFits(nodes: seq<Node>)
    requires WfList(nodes)
    ensures AllFit(nodes)
    decreases nodes
  {
    hide FirstBox, Delimited;
    if nodes != [] {
      if nodes[0].Container? {
        WfFits(nodes[0].children);
      }
      WfFits(nodes[1..]);
    }
  }

  /** In a file of less than 2^32 bytes all containers fit. */
  lemma {:induction false} SmallFilesFit(region: bytes)
    requires |region| < 0x1_0000_0000 && Read(region).Some?
    ensures AllFit(Read(region).value) && |Print(Read(region).value)| <= |region|
    decreases |region|, 1
  {
    hide FirstBox, ReadBox, NodeFits, PrintNode;
    if |region| >= 8 {
      var h := FirstBox(region).value;
      var box, tail := region[..h.size], region[h.size..];
      CutFirst(region);
      SmallBoxesFit(box, h);
      SmallFilesFit(tail);
      assert ([ReadBox(box, h).value] + Read(tail).value)[1..] == Read(tail).value;
    }
  }

  lemma {:induction false} SmallBoxesFit(box: bytes, h: Head)
    requires 8 <= |box| < 0x1_0000_0000 && FirstBox(box) == Success(h) && h.size == |box| && ReadBox(box, h).Some?
    ensures NodeFits(ReadBox(box, h).value) && |PrintNode(ReadBox(box, h).value)| <= |box|
    decreases |box|, 0
  {
    hide Read, Print, BigEndian;
    if IsContainer(h.kind) {
      SmallFilesFit(box[h.header..]);
    }
  }

  /** A node that is printed as the transformed box, whatever that is. */
  function Stand(m: Mapping, n: Node): Node {
    match m.transform(PrintNode(n))
    case Success(changed) => Leaf(m.wanted, changed)
    case Failure(_) => n
  }

  ghost predicate Shaped(n: Node) {
    n.Container? ==> IsContainer(n.kind) && (n.header == 8 || n.header == 16)
  }

  /** Every container that is not above the replaced box can be printed as it is. */
  ghost predicate FitsOff(nodes: seq<Node>, path: Path)
    requires ValidPath(nodes, path)
    decreases |path|
  {
    && (forall i :: 0 <= i < |nodes| && i != path[0] ==> NodeFits(nodes[i]))
    && if |path| == 1 then NodeFits(nodes[path[0]])
       else Shaped(nodes[path[0]]) && FitsOff(nodes[path[0]].children, path[1..])
  }

  lemma {:induction false} AllFitMeans(nodes: seq<Node>)
    ensures AllFit(nodes) <==> forall i :: 0 <= i < |nodes| ==> NodeFits(nodes[i])
    decreases |nodes|
  {
    hide NodeFits;
    if nodes != [] {
      var rest := nodes[1..];
      AllFitMeans(rest);
      assert forall i :: 0 < i < |nodes| ==> nodes[i] == rest[i - 1];
      assert forall i :: 0 <= i < |rest| ==> rest[i] == nodes[i + 1];
    }
  }

  lemma FitsOffFirst(n: Node, rest: seq<Node>, path: Path)
    requires ValidPath([n], path)
    ensures ValidPath([n] + rest, path)
    ensures FitsOff([n] + rest, path) <==> FitsOff([n], path) && AllFit(rest)
  {
    hide NodeFits, AllFit, Shaped;
    AllFitMeans(rest);
    var all := [n] + rest;
    assert forall i :: 0 <= i < |rest| ==> rest[i] == all[i + 1];
    assert forall i :: 0 < i < |all| ==> all[i] == rest[i - 1];
  }

  lemma FitsOffRest(n: Node, rest: seq<Node>, p: Path)
    requires ValidPath(rest, p)
    ensures ValidPath([n] + rest, Shift(p))
    ensures FitsOff([n] + rest, Shift(p)) <==> NodeFits(n) && FitsOff(rest, p)
  {
    hide NodeFits, Shaped;
    var all := [n] + rest;
    assert all[1..] == rest && Shift(p)[1..] == p[1..];
    ShiftedPath(all, p);
    var path := Shift(p);
    assert all[path[0]] == rest[p[0]] && all[0] == n;
    if FitsOff(all, path) {
      assert NodeFits(all[0]);
      forall i | 0 <= i < |rest| && i != p[0]
        ensures NodeFits(rest[i])
      {
        assert all[i + 1] == rest[i];
      }
    }
    if NodeFits(n) && FitsOff(rest, p) {
      forall i | 0 <= i < |all| && i != path[0]
        ensures NodeFits(all[i])
      {
        assert i == 0 || all[i] == rest[i - 1];
      }
    }
  }

  lemma FitsOffInside(n: Node, p: Path)
    requires n.Container? && ValidPath(n.children, p)
    ensures ValidPath([n], [0] + p)
    ensures FitsOff([n], [0] + p) <==> Shaped(n) && FitsOff(n.children, p)
  {
    hide NodeFits, Shaped;
    assert ([0] + p)[1..] == p;
  }

  /**
   The containers not above the chosen box fit; the chosen box, if it is in this list, can be transformed; and the
   containers above it fit with its replacement.
   */
  ghost predicate Doable(nodes: seq<Node>, m: Mapping, seen: nat) {
    if seen <= m.occurrence < seen + Count(nodes, m.wanted) then
      var path := FindNth(nodes, m.wanted, m.occurrence - seen);
      var n := NodeAt(nodes, path);
      FitsOff(nodes, path) && m.transform(PrintNode(n)).Success? && Fits(nodes, path, Stand(m, n))
    else AllFit(nodes)
  }

  lemma AllFitOne(n: Node)
    ensures AllFit([n]) <==> NodeFits(n)
  {
    hide NodeFits;
    assert [n][1..] == [];
  }

  lemma DoableCons(n: Node, rest: seq<Node>, m: Mapping, seen: nat)
    ensures Doable([n] + rest, m, seen) <==>
              Doable([n], m, seen) && Doable(rest, m, seen + CountNode(n, m.wanted))
    ensures Count([n] + rest, m.wanted) == CountNode(n, m.wanted) + Count(rest, m.wanted)
  {
    hide PrintNode, CountNode, FindNth, NodeAt, ReplaceAt, Fits, FitsOff, NodeFits, Print, Stand;
    var all, one := [n] + rest, CountNode(n, m.wanted);
    assert all[1..] == rest;
    CountOne(n, m.wanted);
    AllFitOne(n);
    if seen <= m.occurrence < seen + one {
      var k := m.occurrence - seen;
      FindInFirst(n, rest, m.wanted, k);
      var path := FindNth([n], m.wanted, k);
      ReplaceInFirst(n, rest, path, Stand(m, NodeAt([n], path)));
      FitsOffFirst(n, rest, path);
    } else if seen + one <= m.occurrence < seen + one + Count(rest, m.wanted) {
      FindInRest(n, rest, m.wanted, m.occurrence - seen);
      var path := FindNth(rest, m.wanted, m.occurrence - seen - one);
      ReplaceInRest(n, rest, path, Stand(m, NodeAt(rest, path)));
      FitsOffRest(n, rest, path);
    }
  }

  /** Visiting a region that has a tree succeeds exactly if its boxes can be rebuilt and the chosen one replaced. */
  lemma {:induction false} VisitSucceeds(region: bytes, m: Mapping, seen: nat)
    requires Read(region).Some?
    ensures Visit(region, m, seen).Success? <==> Doable(Read(region).value, m, seen)
    decreases |region|, 1
  {
    hide FirstBox, ReadBox, VisitBox, Doable, CountNode, Rewrites;
    if |region| < 8 {
      NothingToDo(m, seen);
    } else {
      var h := FirstBox(region).value;
      var box, tail := region[..h.size], region[h.size..];
      CutFirst(region);
      var n, rest := ReadBox(box, h).value, Read(tail).value;
      VisitBoxSucceeds(box, h, m, seen);
      DoableCons(n, rest, m, seen);
      if VisitBox(box, h, m, seen).Success? {
        VisitBoxMeans(box, h, m, seen, n);
        VisitSucceeds(tail, m, VisitBox(box, h, m, seen).value.1);
      }
    }
  }

  lemma NothingToDo(m: Mapping, seen: nat)
    ensures Doable([], m, seen)
  {
  }

  lemma {:induction false} VisitBoxSucceeds(box: bytes, h: Head, m: Mapping, seen: nat)
    requires |box| >= 8 && FirstBox(box) == Success(h) && h.size == |box| && ReadBox(box, h).Some?
    ensures VisitBox(box, h, m, seen).Success? <==> Doable([ReadBox(box, h).value], m, seen)
    decreases |box|, 0
  {
    hide Doable, Visit, Read, PrintContainer, Print, Count, CountNode, Rewrites, Choose, SizeField;
    var n := ReadBox(box, h).value;
    if IsContainer(h.kind) {
      var body := box[h.header..];
      VisitSucceeds(body, m, seen);
      if Visit(body, m, seen).Success? {
        var inner := Visit(body, m, seen).value;
        VisitMeans(body, m, seen, n);
        ContainerDoable(n, m, seen, body, inner.0);
      } else {
        InnerNotDoable(n, m, seen);
      }
    } else {
      LeafDoable(n, m, seen);
    }
  }

  lemma LeafDoable(n: Node, m: Mapping, seen: nat)
    requires n.Leaf?
    ensures Choose(m, n.kind, n.raw, seen).Success? <==> Doable([n], m, seen)
  {
    CountOne(n, m.wanted);
    AllFitOne(n);
    FitsOffItself(n);
  }

  /** If the children cannot be visited, neither can the container. */
  lemma InnerNotDoable(n: Node, m: Mapping, seen: nat)
    requires n.Container? && !Doable(n.children, m, seen)
    ensures !Doable([n], m, seen)
  {
    hide PrintContainer, NodeAt, ReplaceAt, Fits, FitsOff, FindNth, Print, PrintNode, Stand, AllFit, Shaped;
    var count := Count(n.children, m.wanted);
    CountOne(n, m.wanted);
    AllFitOne(n);
    if seen <= m.occurrence < seen + count {
      FindInside(n, m.wanted, m.occurrence - seen);
      var path := FindNth(n.children, m.wanted, m.occurrence - seen);
      ReplaceInside(n, path, Stand(m, NodeAt(n.children, path)));
      FitsOffInside(n, path);
    } else if m.occurrence == seen + count && n.kind == m.wanted {
      FindItself(n, m.wanted);
      FitsOffItself(n);
    }
  }

  lemma FitsOffItself(n: Node)
    ensures ValidPath([n], [0]) && (FitsOff([n], [0]) <==> NodeFits(n))
  {
    hide NodeFits;
  }

  ghost predicate VisitedWell(n: Node, m: Mapping, seen: nat, body: bytes)
    requires n.Container?
  {
    Choose(m, n.kind, PrintContainer(n.kind, n.header, body), seen + Count(n.children, m.wanted)).Success?
  }

  /** Rebuilding the container, and then choosing whether to replace it. */
  lemma ContainerDoable(n: Node, m: Mapping, seen: nat, region: bytes, body: bytes)
    requires n.Container? && Shaped(n) && Read(region) == Some(n.children)
    requires Visit(region, m, seen).Success? && Visit(region, m, seen).value.0 == body
    requires Doable(n.children, m, seen)
    ensures Doable([n], m, seen) <==>
              && n.header + |body| < 0x1_0000_0000
              && VisitedWell(n, m, seen, body)
  {
    hide PrintContainer, NodeAt, ReplaceAt, Fits, FitsOff, FindNth, Visit, Read, Print, AllFit, IsContainer;
    var count := Count(n.children, m.wanted);
    CountOne(n, m.wanted);
    AllFitOne(n);
    if seen <= m.occurrence < seen + count {
      var path := FindNth(n.children, m.wanted, m.occurrence - seen);
      var x := Stand(m, NodeAt(n.children, path));
      VisitMeans(region, m, seen, x);
      FindInside(n, m.wanted, m.occurrence - seen);
      ReplaceInside(n, path, x);
      FitsOffInside(n, path);
    } else {
      VisitMeans(region, m, seen, n);
      if m.occurrence == seen + count && n.kind == m.wanted {
        FindItself(n, m.wanted);
        ReplaceItself(n, Stand(m, n));
        FitsOffItself(n);
      }
    }
  }

  /**
   The rewriter succeeds if and only if every box it enters is valid, the wanted box exists, its transform succeeds,
   every container above it can be given a 32-bit size with its replacement, and every other container as it is.
   */
  lemma MapMp4SucceedsExactly(data: bytes, m: Mapping)
    ensures MapMp4(data, m).Success? <==>
              && Read(data).Some?
              && var nodes := Read(data).value;
              && m.occurrence < Count(nodes, m.wanted)
              && var path := FindNth(nodes, m.wanted, m.occurrence);
                 var n := NodeAt(nodes, path);
                 FitsOff(nodes, path) && m.transform(PrintNode(n)).Success? && Fits(nodes, path, Stand(m, n))
  {
    hide Read, Visit, FindNth, NodeAt, AllFit, PrintNode, Print, Count, Fits, FitsOff, Rewrites;
    if Visit(data, m, 0).Success? {
      VisitMeans(data, m, 0, Leaf([], []));
    }
    if Read(data).Some? {
      VisitSucceeds(data, m, 0);
    }
  }

  /** If all containers fit as they are, in particular those off the path do. */
  lemma {:induction false} AllFitOff(nodes: seq<Node>, path: Path)
    requires AllFit(nodes) && ValidPath(nodes, path)
    ensures FitsOff(nodes, path)
    decreases |path|
  {
    hide Print;
    AllFitMeans(nodes);
    if |path| > 1 {
      assert NodeFits(nodes[path[0]]);
      AllFitOff(nodes[path[0]].children, path[1..]);
    }
  }

  // ----- When the rewriter gives its input back

  ghost predicate IsIdentity(m: Mapping) {
    forall b: bytes :: m.transform(b) == Success(b)
  }

  lemma ConcatEqual(a: bytes, b: bytes, c: bytes, d: bytes)
    requires |a| <= |c| && |b| <= |d|
    ensures a + b == c + d <==> a == c && b == d
  {
    if a + b == c + d {
      assert a == (a + b)[..|a|] && c == (c + d)[..|a|];
      assert b == (a + b)[|a|..] && d == (c + d)[|a|..];
    }
  }

  /** An identity transform never makes a region longer, and returns it unchanged exactly if it is plain. */
  lemma {:induction false} VisitIdentity(region: bytes, m: Mapping, seen: nat)
    requires IsIdentity(m) && Visit(region, m, seen).Success?
    ensures |Visit(region, m, seen).value.0| <= |region|
    ensures Visit(region, m, seen).value.0 == region <==> Parse(region).Some?
    decreases |region|, 1
  {
    hide FirstBox, ParseBox, VisitBox, IsIdentity;
    if |region| >= 8 {
      var h := FirstBox(region).value;
      var box, tail := region[..h.size], region[h.size..];
      var first := VisitBox(box, h, m, seen).value;
      CutFirst(region);
      VisitBoxIdentity(box, h, m, seen);
      VisitIdentity(tail, m, first.1);
      ConcatEqual(first.0, Visit(tail, m, first.1).value.0, box, tail);
      assert region == box + tail;
    }
  }

  lemma {:induction false} VisitBoxIdentity(box: bytes, h: Head, m: Mapping, seen: nat)
    requires |box| >= 8 && FirstBox(box) == Success(h) && h.size == |box|
    requires IsIdentity(m) && VisitBox(box, h, m, seen).Success?
    ensures |VisitBox(box, h, m, seen).value.0| <= |box|
    ensures VisitBox(box, h, m, seen).value.0 == box <==> ParseBox(box, h).Some?
    decreases |box|, 0
  {
    hide SizeField, Visit, Parse;
    if IsContainer(h.kind) {
      VisitIdentity(box[h.header..], m, seen);
      var inner := Visit(box[h.header..], m, seen).value;
      var rebuilt := Rebuilt(h.kind, h.header, inner.0).value;
      assert VisitBox(box, h, m, seen).value.0 == rebuilt;
      RebuiltEqual(box, h, inner.0);
    }
  }

  /** Rebuilding a container gives the old bytes exactly for a 32-bit size that is not 0 and an unchanged body. */
  lemma RebuiltEqual(box: bytes, h: Head, body: bytes)
    requires |box| >= 8 && FirstBox(box) == Success(h) && h.size == |box|
    requires |body| <= |box| - h.header && Rebuilt(h.kind, h.header, body).Success?
    ensures var rebuilt := Rebuilt(h.kind, h.header, body).value;
            && |rebuilt| <= |box|
            && (rebuilt == box <==> SizeField(box) > 1 && body == box[h.header..])
  {
    hide FromBigEndian, BigEndian;
    var rebuilt := Rebuilt(h.kind, h.header, body).value;
    var n := |body| + h.header;
    Pow2Of32();
    FromToBigEndian(n, 4);
    assert rebuilt[..4] == BigEndian(n, 4);
    assert rebuilt[8..] == body;
    assert SizeField(rebuilt) == n;
    if SizeField(box) > 1 {
      RebuiltSame(box, h);
    }
  }

  /** On a plain file an identity transform never fails. */
  lemma PlainVisits(data: bytes, m: Mapping)
    requires IsIdentity(m) && Parse(data).Some?
    ensures Visit(data, m, 0).Success?
  {
    hide Read, FindNth, NodeAt, ReplaceAt, PrintNode, Print, Count, WfList, AllFit, Visit, Parse, Fits, FitsOff;
    PlainReads(data);
    ParsePrint(data);
    WfFits(Read(data).value);
    VisitSucceeds(data, m, 0);
    var nodes := Read(data).value;
    if m.occurrence < Count(nodes, m.wanted) {
      var path := FindNth(nodes, m.wanted, m.occurrence);
      var n := NodeAt(nodes, path);
      StandPrints(m, n);
      FitsItself(nodes, path, Stand(m, n));
      AllFitOff(nodes, path);
    }
  }

  lemma StandPrints(m: Mapping, n: Node)
    requires m.transform(PrintNode(n)).Success?
    ensures Transforms(m, [n], [0], Stand(m, n)) && PrintNode(Stand(m, n)) == m.transform(PrintNode(n)).value
  {
  }

  /** Replacing a box of a well-formed tree by one of the same length. */
  lemma {:induction false} FitsItself(nodes: seq<Node>, path: Path, x: Node)
    requires WfList(nodes) && ValidPath(nodes, path) && |PrintNode(x)| == |PrintNode(NodeAt(nodes, path))|
    ensures Fits(nodes, path, x)
    decreases |path|
  {
    hide PrintNode, Print;
    if |path| > 1 {
      WfMember(nodes, path[0]);
      ReplaceGrows(nodes[path[0]].children, path[1..], x);
      FitsItself(nodes[path[0]].children, path[1..], x);
    }
  }

  lemma {:induction false} WfMember(nodes: seq<Node>, i: nat)
    requires WfList(nodes) && i < |nodes|
    ensures WfNode(nodes[i])
  {
    hide WfNode, Delimited;
    if i > 0 {
      WfMember(nodes[1..], i - 1);
    }
  }

  /**
   With an identity transform the output is the input if and only if every container in the file has a
   32-bit size other than 0, no region has bytes left over and the wanted box exists.
   */
  lemma IdentityExactlyOnPlainFiles(data: bytes, m: Mapping)
    requires IsIdentity(m)
    ensures MapMp4(data, m) == Success(data)
       <==> Parse(data).Some? && m.occurrence < Count(Parse(data).value, m.wanted)
  {
    hide Visit, Parse, Read, IsIdentity, Count, Rewrites;
    if Parse(data).Some? {
      PlainVisits(data, m);
      PlainReads(data);
      VisitMeans(data, m, 0, Leaf([], []));
    }
    if Visit(data, m, 0).Success? {
      VisitIdentity(data, m, 0);
    }
  }

  // ----- Containers with a 64-bit size

  /** No container, at any depth, had a 16-byte header. */
  predicate NoWide(nodes: seq<Node>) {
    nodes == [] || (NoWideNode(nodes[0]) && NoWide(nodes[1..]))
  }

  predicate NoWideNode(n: Node) {
    n.Container? ==> n.header == 8 && NoWide(n.children)
  }

  /** The same boxes, all with eight-byte headers. */
  function Narrow(nodes: seq<Node>): seq<Node> {
    if nodes == [] then [] else [NarrowNode(nodes[0])] + Narrow(nodes[1..])
  }

  function NarrowNode(n: Node): Node {
    match n
    case Leaf(_, _) => n
    case Container(kind, _, children) => Container(kind, 8, Narrow(children))
  }

  /** A rebuilt container with a 16-byte header claims eight bytes more than it has. */
  lemma WideSizeField(n: Node, rest: bytes)
    requires n.Container? && n.header == 16 && NodeFits(n)
    ensures |PrintNode(n)| >= 8 && SizeField(PrintNode(n) + rest) == |PrintNode(n)| + 8
    ensures |rest| < 8 ==> FirstBox(PrintNode(n) + rest) == Failure(ValueError)
  {
    hide FromBigEndian, BigEndian, Print;
    var size := n.header + |Print(n.children)|;
    var out := PrintNode(n) + rest;
    Pow2Of32();
    FromToBigEndian(size, 4);
    assert out[..4] == BigEndian(size, 4);
  }

  /** Printing a container with either header gives the same bytes exactly if the headers are the same. */
  lemma HeaderShows(kind: bytes, header: nat, body: bytes)
    requires 8 <= header && header + |body| < 0x1_0000_0000
    ensures PrintContainer(kind, header, body) == PrintContainer(kind, 8, body) <==> header == 8
  {
    hide FromBigEndian, BigEndian;
    var a, b := PrintContainer(kind, header, body), PrintContainer(kind, 8, body);
    Pow2Of32();
    FromToBigEndian(header + |body|, 4);
    FromToBigEndian(8 + |body|, 4);
    assert a[..4] == BigEndian(header + |body|, 4) && b[..4] == BigEndian(8 + |body|, 4);
  }

  lemma BodyShows(kind: bytes, body: bytes, other: bytes)
    requires |body| == |other|
    ensures PrintContainer(kind, 8, body) == PrintContainer(kind, 8, other) <==> body == other
  {
    hide BigEndian;
    var a, b := PrintContainer(kind, 8, body), PrintContainer(kind, 8, other);
    assert a[4 + |kind|..] == body && b[4 + |kind|..] == other;
  }

  /** A tree and its narrow form print the same bytes exactly if no container is wide. */
  lemma {:induction false} NarrowPrints(nodes: seq<Node>)
    requires AllFit(nodes)
    ensures |Print(Narrow(nodes))| == |Print(nodes)|
    ensures Print(Narrow(nodes)) == Print(nodes) <==> NoWide(nodes)
    decreases nodes, 1
  {
    hide PrintNode, NarrowNode, NodeFits;
    if nodes != [] {
      var n, rest := nodes[0], nodes[1..];
      NarrowNodePrints(n);
      NarrowPrints(rest);
      assert ([NarrowNode(n)] + Narrow(rest))[1..] == Narrow(rest);
      ConcatEqual(PrintNode(NarrowNode(n)), Print(Narrow(rest)), PrintNode(n), Print(rest));
    }
  }

  lemma {:induction false} NarrowNodePrints(n: Node)
    requires NodeFits(n)
    ensures |PrintNode(NarrowNode(n))| == |PrintNode(n)|
    ensures PrintNode(NarrowNode(n)) == PrintNode(n) <==> NoWideNode(n)
    decreases n, 0
  {
    hide Print;
    if n.Container? {
      hide PrintContainer;
      NarrowPrints(n.children);
      var body, narrow := Print(n.children), Print(Narrow(n.children));
      PrintContainerLength(n.kind, n.header, body);
      PrintContainerLength(n.kind, 8, narrow);
      HeadersAndBodies(n.kind, n.header, body, narrow);
    }
  }

  lemma PrintContainerLength(kind: bytes, header: nat, body: bytes)
    ensures |PrintContainer(kind, header, body)| == 4 + |kind| + |body|
  {
  }

  lemma HeadersAndBodies(kind: bytes, header: nat, body: bytes, other: bytes)
    requires 8 <= header && header + |body| < 0x1_0000_0000 && |other| == |body|
    ensures PrintContainer(kind, 8, other) == PrintContainer(kind, header, body) <==> header == 8 && other == body
  {
    hide BigEndian, FromBigEndian;
    BodyShows(kind, other, body);
    HeaderShows(kind, header, body);
    var a, b := PrintContainer(kind, 8, other), PrintContainer(kind, header, body);
    assert a == BigEndian(8 + |other|, 4) + kind + other && b == BigEndian(header + |body|, 4) + kind + body;
    if a == b {
      assert a[4 + |kind|..] == other && b[4 + |kind|..] == body;
    }
  }

  /** A visit that leaves every box as it is prints the region's tree, and all of its containers fit. */
  lemma {:induction false} VisitKeeps(region: bytes, m: Mapping, seen: nat)
    requires IsIdentity(m) && Visit(region, m, seen).Success?
    ensures Read(region).Some? && AllFit(Read(region).value)
    ensures Visit(region, m, seen).value.0 == Print(Read(region).value)
    decreases |region|, 1
  {
    hide FirstBox, ReadBox, VisitBox, IsIdentity, NodeFits, PrintNode;
    if |region| >= 8 {
      var h := FirstBox(region).value;
      var box, tail := region[..h.size], region[h.size..];
      CutFirst(region);
      VisitBoxKeeps(box, h, m, seen);
      VisitKeeps(tail, m, VisitBox(box, h, m, seen).value.1);
      assert ([ReadBox(box, h).value] + Read(tail).value)[1..] == Read(tail).value;
    }
  }

  lemma {:induction false} VisitBoxKeeps(box: bytes, h: Head, m: Mapping, seen: nat)
    requires |box| >= 8 && FirstBox(box) == Success(h) && h.size == |box|
    requires IsIdentity(m) && VisitBox(box, h, m, seen).Success?
    ensures ReadBox(box, h).Some? && NodeFits(ReadBox(box, h).value)
    ensures VisitBox(box, h, m, seen).value.0 == PrintNode(ReadBox(box, h).value)
    decreases |box|, 0
  {
    hide SizeField, Visit, Read, PrintContainer, Print;
    if IsContainer(h.kind) {
      VisitKeeps(box[h.header..], m, seen);
    }
  }

  /** What holds of every tree that is read: leaves are boxes, and only the last box of a region may be open-ended. */
  ghost predicate OkList(nodes: seq<Node>) {
    && (forall n :: n in nodes ==> OkNode(n))
    && forall i :: 0 <= i < |nodes| - 1 ==> Delimited(nodes[i])
  }

  ghost predicate OkNode(n: Node) {
    match n
    case Leaf(_, _) => WfNode(n)
    case Container(kind, _, children) => IsContainer(kind) && OkList(children)
  }

  lemma OkCons(n: Node, rest: seq<Node>)
    requires OkNode(n) && OkList(rest) && (rest != [] ==> Delimited(n))
    ensures OkList([n] + rest)
  {
    hide OkNode, Delimited;
  }

  lemma {:induction false} ReadOk(region: bytes)
    requires Read(region).Some?
    ensures OkList(Read(region).value)
    decreases |region|, 1
  {
    hide FirstBox, ReadBox, OkNode, OkList, Delimited, SizeField;
    if |region| < 8 {
      NothingIsOk();
    } else {
      var h := FirstBox(region).value;
      var box, tail := region[..h.size], region[h.size..];
      CutFirst(region);
      ReadBoxOk(box, h);
      ReadOk(tail);
      OkCons(ReadBox(box, h).value, Read(tail).value);
    }
  }

  lemma NothingIsOk()
    ensures OkList([])
  {
  }

  lemma {:induction false} ReadBoxOk(box: bytes, h: Head)
    requires |box| >= 8 && FirstBox(box) == Success(h) && h.size == |box| && ReadBox(box, h).Some?
    ensures OkNode(ReadBox(box, h).value) && (SizeField(box) != 0 ==> Delimited(ReadBox(box, h).value))
    decreases |box|, 0
  {
    hide Read, OkList;
    if IsContainer(h.kind) {
      ReadOk(box[h.header..]);
    }
  }

  lemma {:induction false} OkWf(nodes: seq<Node>)
    requires OkList(nodes) && AllFit(nodes) && NoWide(nodes)
    ensures WfList(nodes)
    decreases nodes, 1
  {
    hide OkNode, NodeFits, NoWideNode, WfNode, Delimited;
    if nodes != [] {
      assert nodes[0] in nodes;
      assert forall n :: n in nodes[1..] ==> n in nodes;
      OkNodeWf(nodes[0]);
      OkWf(nodes[1..]);
    }
  }

  lemma {:induction false} OkNodeWf(n: Node)
    requires OkNode(n) && NodeFits(n) && NoWideNode(n)
    ensures WfNode(n)
    decreases n, 0
  {
    hide Print, FirstBox;
    if n.Container? {
      OkWf(n.children);
    }
  }

  lemma {:induction false} WfOk(nodes: seq<Node>)
    requires WfList(nodes)
    ensures OkList(nodes)
    decreases nodes, 1
  {
    hide OkNode, OkList, WfNode, Delimited;
    if nodes == [] {
      NothingIsOk();
    } else {
      WfNodeOk(nodes[0]);
      WfOk(nodes[1..]);
      OkCons(nodes[0], nodes[1..]);
      assert nodes == [nodes[0]] + nodes[1..];
    }
  }

  lemma {:induction false} WfNodeOk(n: Node)
    requires WfNode(n)
    ensures OkNode(n)
    decreases n, 0
  {
    hide OkList, FirstBox;
    if n.Container? {
      WfOk(n.children);
    }
  }

  lemma {:induction false} ReplaceOk(nodes: seq<Node>, path: Path, x: Node)
    requires OkList(nodes) && ValidPath(nodes, path) && OkNode(x) && Delimited(x)
    ensures OkList(ReplaceAt(nodes, path, x))
    decreases |path|
  {
    hide Delimited;
    var all, i := ReplaceAt(nodes, path, x), path[0];
    assert nodes[i] in nodes;
    if |path| > 1 {
      ReplaceOk(nodes[i].children, path[1..], x);
      ContainersAreDelimited(all[i]);
    }
    forall n | n in all
      ensures OkNode(n)
    {
      var k :| 0 <= k < |all| && all[k] == n;
      if k != i {
        assert n == nodes[k] && nodes[k] in nodes;
      }
    }
  }

  /** If the other containers fit, and those above the replaced box fit with `x`, all of the new tree fits. */
  lemma {:induction false} ReplacedFits(nodes: seq<Node>, path: Path, x: Node)
    requires ValidPath(nodes, path) && FitsOff(nodes, path) && Fits(nodes, path, x) && NodeFits(x)
    ensures AllFit(ReplaceAt(nodes, path, x))
    decreases |path|
  {
    hide Print, AllFit;
    var all, i := ReplaceAt(nodes, path, x), path[0];
    if |path| > 1 {
      ReplacedFits(nodes[i].children, path[1..], x);
    }
    assert forall k :: 0 <= k < |all| && k != i ==> all[k] == nodes[k];
    assert NodeFits(all[i]);
    AllFitMeans(all);
  }

  lemma {:induction false} NarrowSame(nodes: seq<Node>)
    requires NoWide(nodes)
    ensures Narrow(nodes) == nodes
    decreases nodes, 1
  {
    if nodes != [] {
      if nodes[0].Container? {
        NarrowSame(nodes[0].children);
      }
      NarrowSame(nodes[1..]);
      assert nodes == [nodes[0]] + nodes[1..];
    }
  }

  /** A printed tree parses to itself exactly if no container has a 64-bit size. */
  lemma TreeParsesExactly(nodes: seq<Node>)
    requires OkList(nodes) && AllFit(nodes)
    ensures Parse(Print(nodes)) == Some(Narrow(nodes)) <==> NoWide(nodes)
  {
    hide Print, Parse, Narrow, NoWide, AllFit, WfList, OkList;
    NarrowPrints(nodes);
    if NoWide(nodes) {
      OkWf(nodes);
      PrintParse(nodes);
      NarrowSame(nodes);
    }
    if Parse(Print(nodes)) == Some(Narrow(nodes)) {
      ParsePrint(Print(nodes));
    }
  }

  /** With an identity transform the output parses to the input's tree exactly if no container has a 64-bit size. */
  lemma IdentityParsesExactly(data: bytes, m: Mapping)
    requires IsIdentity(m) && MapMp4(data, m).Success?
    ensures Read(data).Some?
    ensures Parse(MapMp4(data, m).value) == Some(Narrow(Read(data).value)) <==> NoWide(Read(data).value)
  {
    hide Read, Print, Visit, Parse, IsIdentity, Narrow, NoWide, AllFit, OkList;
    VisitKeeps(data, m, 0);
    ReadOk(data);
    TreeParsesExactly(Read(data).value);
  }

  /**
   With any transform whose result is one well-formed box `x`: the output parses to the input's tree with the chosen
   box replaced by `x` exactly if no container of that tree has a 64-bit size, that is, none but possibly the replaced
   box and what was inside it.
   */
  lemma MapMp4ParsesExactly(data: bytes, m: Mapping, x: Node)
    requires MapMp4(data, m).Success? && WfNode(x) && Delimited(x)
    ensures Read(data).Some? && m.occurrence < Count(Read(data).value, m.wanted)
    ensures var nodes := Read(data).value;
            var path := FindNth(nodes, m.wanted, m.occurrence);
            Transforms(m, nodes, path, x) ==>
              var changed := ReplaceAt(nodes, path, x);
              Parse(MapMp4(data, m).value) == Some(Narrow(changed)) <==> NoWide(changed)
  {
    hide Read, Print, Parse, Narrow, NoWide, AllFit, OkList, MapMp4, Count, FindNth, NodeAt, ReplaceAt, Fits, FitsOff,
        WfNode, OkNode, NodeFits, Delimited, Transforms, WfList, Stand;
    MapMp4Rewrites(data, m, x);
    MapMp4SucceedsExactly(data, m);
    var nodes := Read(data).value;
    var path := FindNth(nodes, m.wanted, m.occurrence);
    if Transforms(m, nodes, path, x) {
      ReadOk(data);
      WfNodeOk(x);
      WfNodeFits(x);
      ReplaceOk(nodes, path, x);
      ReplacedFits(nodes, path, x);
      TreeParsesExactly(ReplaceAt(nodes, path, x));
    }
  }

  lemma WfNodeFits(x: Node)
    requires WfNode(x)
    ensures NodeFits(x)
  {
    hide FirstBox, Print;
    if x.Container? {
      WfFits(x.children);
    }
  }

  /** Where a node stands in the printed region. */
  lemma {:induction false} PrintedAt(nodes: seq<Node>, path: Path) returns (at: nat)
    requires ValidPath(nodes, path)
    ensures var box := PrintNode(NodeAt(nodes, path));
            at + |box| <= |Print(nodes)| && Print(nodes)[at..at + |box|] == box
    decreases |path|, path[0], 0
  {
    hide PrintNode;
    var first, rest := PrintNode(nodes[0]), Print(nodes[1..]);
    if path[0] > 0 {
      var p := UnshiftPath(nodes, path);
      ShiftedPath(nodes, p);
      at := PrintedAt(nodes[1..], p);
      at := at + |first|;
    } else if |path| == 1 {
      at := 0;
    } else {
      at := PrintedInside(nodes[0], path[1..]);
    }
  }

  lemma {:induction false} PrintedInside(n: Node, path: Path) returns (at: nat)
    requires n.Container? && ValidPath(n.children, path)
    ensures var box := PrintNode(NodeAt(n.children, path));
            at + |box| <= |PrintNode(n)| && PrintNode(n)[at..at + |box|] == box
    decreases |path|, path[0], 1
  {
    hide Print, BigEndian;
    at := PrintedAt(n.children, path);
    at := at + 4 + |n.kind|;
  }

  lemma {:induction false} FitsAt(nodes: seq<Node>, path: Path)
    requires AllFit(nodes) && ValidPath(nodes, path)
    ensures NodeFits(NodeAt(nodes, path))
    decreases |path|, path[0]
  {
    hide NodeFits;
    if path[0] > 0 {
      var p := UnshiftPath(nodes, path);
      ShiftedPath(nodes, p);
      FitsAt(nodes[1..], p);
    } else if |path| > 1 {
      ChildrenFit(nodes[0]);
      FitsAt(nodes[0].children, path[1..]);
    }
  }

  lemma ChildrenFit(n: Node)
    requires n.Container? && NodeFits(n)
    ensures AllFit(n.children)
  {
  }

  /** The tree the rewriter prints, with a leaf of whatever bytes the transform returned. */
  ghost function Written(nodes: seq<Node>, m: Mapping): seq<Node>
    requires m.occurrence < Count(nodes, m.wanted)
  {
    var path := FindNth(nodes, m.wanted, m.occurrence);
    ReplaceAt(nodes, path, Stand(m, NodeAt(nodes, path)))
  }

  /**
   A container with a 64-bit size, at any place outside the replaced box of any file, whatever the transform: it stands
   in the output with a size field that reaches eight bytes too far, and is not a valid box if fewer than eight bytes
   follow it.
   */
  lemma WideContainerBreaks(data: bytes, m: Mapping, q: Path) returns (at: nat)
    requires MapMp4(data, m).Success? && Read(data).Some? && m.occurrence < Count(Read(data).value, m.wanted)
    requires var all := Written(Read(data).value, m);
             ValidPath(all, q) && NodeAt(all, q).Container? && NodeAt(all, q).header == 16
    ensures var box, out := PrintNode(NodeAt(Written(Read(data).value, m), q)), MapMp4(data, m).value;
            && |box| >= 8 && at + |box| <= |out| && out[at..at + |box|] == box
            && SizeField(out[at..]) == |box| + 8
            && (|out| < at + |box| + 8 ==> FirstBox(out[at..]) == Failure(ValueError))
  {
    hide Read, Print, MapMp4, AllFit, NodeFits, FirstBox, SizeField, PrintNode, NodeAt, Count, FindNth, Fits, FitsOff,
        ReplaceAt, Parse, WfList;
    var nodes, out := Read(data).value, MapMp4(data, m).value;
    var all := Written(nodes, m);
    WrittenPrints(data, m);
    at := PrintedAt(all, q);
    FitsAt(all, q);
    var box := PrintNode(NodeAt(all, q));
    WideSizeField(NodeAt(all, q), out[at + |box|..]);
    assert out[at..] == box + out[at + |box|..];
  }

  lemma WrittenPrints(data: bytes, m: Mapping)
    requires MapMp4(data, m).Success? && Read(data).Some? && m.occurrence < Count(Read(data).value, m.wanted)
    ensures MapMp4(data, m).value == Print(Written(Read(data).value, m)) && AllFit(Written(Read(data).value, m))
  {
    hide Read, Print, MapMp4, AllFit, PrintNode, NodeAt, Count, FindNth, Fits, FitsOff, ReplaceAt, Parse, WfList;
    var nodes := Read(data).value;
    var path := FindNth(nodes, m.wanted, m.occurrence);
    MapMp4SucceedsExactly(data, m);
    var n := NodeAt(nodes, path);
    StandPrints(m, n);
    MapMp4Rewrites(data, m, Stand(m, n));
    ReplacedFits(nodes, path, Stand(m, n));
  }

  const WIDE_MOOV: bytes := [0, 0, 0, 1] + MOOV + [0, 0, 0, 0, 0, 0, 0, 16]
  const BROKEN_MOOV: bytes := [0, 0, 0, 16] + MOOV

  /** The smallest case: an empty `moov` with a 64-bit size comes out as eight bytes that claim to be sixteen. */
  lemma WideMoov(m: Mapping)
    requires IsIdentity(m) && m.wanted == MOOV && m.occurrence == 0
    ensures MapMp4(WIDE_MOOV, m) == Success(BROKEN_MOOV)
    ensures FirstBox(BROKEN_MOOV) == Failure(ValueError)
  {
    WideMoovHeads();
    var data := WIDE_MOOV;
    hide FirstBox, BigEndian;
    assert data[..16] == data && data[16..] == [];
    assert Visit([], m, 0) == Success(([], 0)) && Visit([], m, 1) == Success(([], 1));
    assert BigEndian(16, 4) + MOOV + [] == BROKEN_MOOV;
    assert Choose(m, MOOV, BROKEN_MOOV, 0) == Success((BROKEN_MOOV, 1));
    assert VisitBox(data, Head(MOOV, 16, 16), m, 0) == Success((BROKEN_MOOV, 1));
    assert Visit(data, m, 0) == Success((BROKEN_MOOV + [], 1));
    assert BROKEN_MOOV + [] == BROKEN_MOOV;
  }

  lemma WideMoovHeads()
    ensures FirstBox(WIDE_MOOV) == Success(Head(MOOV, 16, 16))
    ensures FirstBox(BROKEN_MOOV) == Failure(ValueError) && BigEndian(16, 4) == [0, 0, 0, 16]
  {
    hide FromBigEndian, BigEndian;
    ZerosFirst(WIDE_MOOV[..4], 1);
    ZerosFirst(Slice(WIDE_MOOV, 8, 16), 16);
    ZerosFirst(BROKEN_MOOV[..4], 16);
    ToFromBigEndian(BROKEN_MOOV[..4]);
    assert BROKEN_MOOV[..4] == [0, 0, 0, 16];
    assert WIDE_MOOV[4..8] == MOOV;
  }

  lemma ZerosFirst(s: bytes, last: byte)
    requires s != [] && s[|s| - 1] == last && forall i :: 0 <= i < |s| - 1 ==> s[i] == 0
    ensures FromBigEndian(s) == last
    decreases |s|
  {
    var front := s[..|s| - 1];
    if front == [] {
      assert FromBigEndian(front) == 0;
    } else {
      ZerosFirst(front, 0);
    }
    assert FromBigEndian(s) == 256 * FromBigEndian(front) + last;
  }
}
