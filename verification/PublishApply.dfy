/**
 Applying a plan: the manifest edits, what they do to the metadata, and when the script stops because an edit finds
 no line to change.
 */
module PublishApply {
  import opened Wrappers
  import opened PublishGraph
  import opened PublishPlan

  // ----- Edits

  /** The first line the pattern for this name matches. */
  function FirstLine(lines: seq<Line>, key: string): (r: Option<Line>)
    ensures r.Some? <==> exists l :: l in lines && l.key == key
    ensures r.Some? ==> r.value in lines && r.value.key == key
  {
    if lines == [] then None
    else if lines[0].key == key then Some(lines[0])
    else FirstLine(lines[1..], key)
  }

  /** The entry whose requirement an edit for this name sets, if it sets one. */
  function EditedEntry(p: Package, name: string): (r: Option<nat>)
    ensures r.Some? ==> r.value < |p.dependencies|
  {
    match FirstLine(p.lines, name)
    case Some(Line(_, Some(k))) => if k < |p.dependencies| then Some(k) else None
    case _ => None
  }

  function SetVersion(p: Package, name: string, req: string): Package {
    match EditedEntry(p, name)
    case Some(k) => p.(dependencies := p.dependencies[k := p.dependencies[k].(req := req)])
    case None => p
  }

  function Edit(p: Package, op: Operation): Package {
    if p.manifest != Some(op.manifest) then p
    else
      match op
      case SetPathVersion(_, _, name, expected) => SetVersion(p, name, expected)
      case SetPublish(_, _, publish) => p.(publish := if publish then None else Some([]))
  }

  /** The manifest exists and, for a version, has a line for the dependency. */
  predicate Finds(md: Metadata, op: Operation) {
    exists p :: p in md.packages && p.manifest == Some(op.manifest)
      && (op.SetPathVersion? ==> FirstLine(p.lines, op.dependency).Some?)
  }

  function EditAll(p: Package, ops: seq<Operation>): Package
    decreases |ops|
  {
    if ops == [] then p else EditAll(Edit(p, ops[0]), ops[1..])
  }

  function Applied(md: Metadata, op: Operation): Metadata {
    md.(packages := seq(|md.packages|, i requires 0 <= i < |md.packages| => Edit(md.packages[i], op)))
  }

  function AppliedAll(md: Metadata, ops: seq<Operation>): Metadata
    decreases |ops|
  {
    if ops == [] then md else AppliedAll(Applied(md, ops[0]), ops[1..])
  }

  /** How many operations are carried out before the first that finds nothing to edit. */
  function Steps(md: Metadata, ops: seq<Operation>): (n: nat)
    ensures n <= |ops|
    ensures forall i :: 0 <= i < n ==> Finds(md, ops[i])
    ensures n < |ops| ==> !Finds(md, ops[n])
  {
    if ops == [] || !Finds(md, ops[0]) then 0 else 1 + Steps(md, ops[1..])
  }

  lemma {:induction false} AllSteps(md: Metadata, ops: seq<Operation>)
    requires forall op :: op in ops ==> Finds(md, op)
    ensures Steps(md, ops) == |ops|
  {
    hide Finds;
    if ops != [] {
      assert forall op :: op in ops[1..] ==> op in ops;
      assert ops[0] in ops;
      AllSteps(md, ops[1..]);
    }
  }

  /** The workspace the script leaves behind: edits made before it stops are not undone. */
  function LeftBehind(md: Metadata, ops: seq<Operation>): Metadata {
    AppliedAll(md, ops[..Steps(md, ops)])
  }

  /** The loop over the plan's operations. */
  method ApplyPlan(md: Metadata, ops: seq<Operation>) returns (after: Metadata, error: Option<Error>)
    ensures after == LeftBehind(md, ops)
    ensures error.None? <==> forall op :: op in ops ==> Finds(md, op)
    ensures error.Some? ==> error.value == EntryNotFound
  {
    hide Finds, Applied, AppliedAll;
    after := md;
    assert ops[..0] == [];
    NothingApplied(md);
    for i := 0 to |ops|
      invariant i <= Steps(md, ops) && after == AppliedAll(md, ops[..i])
    {
      EditsKeepLines(md, ops[..i], ops[i]);
      if !Finds(after, ops[i]) {
        assert ops[i] in ops;
        return after, Some(EntryNotFound);
      }
      AppliedOneMore(md, ops[..i], ops[i]);
      assert ops[..i + 1] == ops[..i] + [ops[i]];
      after := Applied(after, ops[i]);
    }
    return after, None;
  }

  lemma NothingApplied(md: Metadata)
    ensures AppliedAll(md, []) == md
  {
  }

  lemma {:induction false} AppliedOneMore(md: Metadata, ops: seq<Operation>, op: Operation)
    ensures AppliedAll(md, ops + [op]) == Applied(AppliedAll(md, ops), op)
    decreases |ops|
  {
    hide Applied;
    if ops == [] {
      assert [op][1..] == [] && ops + [op] == [op];
    } else {
      assert (ops + [op])[1..] == ops[1..] + [op];
      AppliedOneMore(Applied(md, ops[0]), ops[1..], op);
    }
  }

  lemma {:induction false} AppliedPackages(md: Metadata, ops: seq<Operation>)
    ensures var after := AppliedAll(md, ops);
            && |after.packages| == |md.packages| && after.nodes == md.nodes && after.workspace == md.workspace
            && forall i :: 0 <= i < |md.packages| ==> after.packages[i] == EditAll(md.packages[i], ops)
    decreases |ops|
  {
    hide Edit;
    if ops != [] {
      AppliedPackages(Applied(md, ops[0]), ops[1..]);
    }
  }

  // ----- What editing one package does

  ghost predicate SameBut(p: Package, q: Package) {
    && q.id == p.id && q.name == p.name && q.version == p.version && q.dir == p.dir && q.manifest == p.manifest
    && q.lines == p.lines && |q.dependencies| == |p.dependencies|
    && forall k :: 0 <= k < |p.dependencies| ==> q.dependencies[k] == p.dependencies[k].(req := q.dependencies[k].req)
  }

  /** The operation sets the requirement of entry `k`. */
  predicate Sets(p: Package, k: nat, op: Operation) {
    op.SetPathVersion? && p.manifest == Some(op.manifest) && EditedEntry(p, op.dependency) == Some(k)
  }

  /** The requirement of an entry after all operations that set it. */
  function FinalReq(p: Package, k: nat, req: string, ops: seq<Operation>): string
    decreases |ops|
  {
    if ops == [] then req
    else FinalReq(p, k, if Sets(p, k, ops[0]) then ops[0].expected else req, ops[1..])
  }

  function FinalPublish(manifest: Option<string>, publish: Option<seq<string>>,
      ops: seq<Operation>): Option<seq<string>>
    decreases |ops|
  {
    if ops == [] then publish
    else if ops[0].SetPublish? && manifest == Some(ops[0].manifest)
    then FinalPublish(manifest, if ops[0].publish then None else Some([]), ops[1..])
    else FinalPublish(manifest, publish, ops[1..])
  }

  lemma EditMeans(p: Package, op: Operation)
    ensures SameBut(p, Edit(p, op))
    ensures forall k :: 0 <= k < |p.dependencies| ==>
              Edit(p, op).dependencies[k].req == if Sets(p, k, op) then op.expected else p.dependencies[k].req
    ensures Edit(p, op).publish == FinalPublish(p.manifest, p.publish, [op])
  {
    hide FirstLine;
    assert [op][1..] == [];
  }

  /** Edited packages react to edits in the same way. */
  lemma {:induction false} SameFinalReq(p: Package, q: Package, k: nat, req: string, ops: seq<Operation>)
    requires SameBut(p, q)
    ensures FinalReq(p, k, req, ops) == FinalReq(q, k, req, ops)
    decreases |ops|
  {
    hide FirstLine;
    if ops != [] {
      assert Sets(p, k, ops[0]) <==> Sets(q, k, ops[0]);
      SameFinalReq(p, q, k, if Sets(p, k, ops[0]) then ops[0].expected else req, ops[1..]);
    }
  }

  /**
   A package edited by many operations: everything stays but the publish flag and the requirements, which are what the
   operations that set them say.
   */
  lemma {:induction false} EditAllMeans(p: Package, ops: seq<Operation>)
    ensures SameBut(p, EditAll(p, ops))
    ensures forall k :: 0 <= k < |p.dependencies| ==>
              EditAll(p, ops).dependencies[k].req == FinalReq(p, k, p.dependencies[k].req, ops)
    ensures EditAll(p, ops).publish == FinalPublish(p.manifest, p.publish, ops)
    decreases |ops|
  {
    hide Edit, Sets;
    if ops != [] {
      var q := Edit(p, ops[0]);
      EditMeans(p, ops[0]);
      EditAllMeans(q, ops[1..]);
      forall k | 0 <= k < |p.dependencies|
        ensures EditAll(p, ops).dependencies[k].req == FinalReq(p, k, p.dependencies[k].req, ops)
      {
        SameFinalReq(p, q, k, q.dependencies[k].req, ops[1..]);
      }
      FinalPublishStep(p.manifest, p.publish, ops);
    }
  }

  lemma FinalPublishStep(manifest: Option<string>, publish: Option<seq<string>>, ops: seq<Operation>)
    requires ops != []
    ensures FinalPublish(manifest, publish, ops)
         == FinalPublish(manifest, FinalPublish(manifest, publish, [ops[0]]), ops[1..])
  {
    assert [ops[0]][1..] == [];
  }

  /** A requirement is the old one or comes from an operation that sets it. */
  lemma {:induction false} FinalReqGiven(p: Package, k: nat, req: string, ops: seq<Operation>)
    ensures var final := FinalReq(p, k, req, ops);
            final == req || exists op :: op in ops && Sets(p, k, op) && op.expected == final
    decreases |ops|
  {
    hide EditedEntry;
    if ops != [] {
      var next := if Sets(p, k, ops[0]) then ops[0].expected else req;
      FinalReqGiven(p, k, next, ops[1..]);
      assert forall op :: op in ops <==> op == ops[0] || op in ops[1..];
    }
  }

  /** Operations that set an entry and agree on the version decide its requirement; without any it stays. */
  lemma {:induction false} FinalReqDecided(p: Package, k: nat, req: string, ops: seq<Operation>, expected: string)
    requires forall op :: op in ops && Sets(p, k, op) ==> op.expected == expected
    ensures FinalReq(p, k, req, ops) == if (exists op :: op in ops && Sets(p, k, op)) then expected else req
    decreases |ops|
  {
    hide EditedEntry;
    if ops != [] {
      var rest := ops[1..];
      assert forall op :: op in ops <==> op == ops[0] || op in rest;
      FinalReqDecided(p, k, if Sets(p, k, ops[0]) then ops[0].expected else req, rest, expected);
    }
  }

  lemma {:induction false} FinalPublishDecided(manifest: string, publish: Option<seq<string>>,
      ops: seq<Operation>, value: bool)
    requires forall op :: op in ops && op.SetPublish? && op.manifest == manifest ==> op.publish == value
    ensures FinalPublish(Some(manifest), publish, ops)
         == if (exists op :: op in ops && op.SetPublish? && op.manifest == manifest)
            then (if value then None else Some([])) else publish
    decreases |ops|
  {
    if ops != [] {
      var rest := ops[1..];
      assert forall op :: op in ops <==> op == ops[0] || op in rest;
      var next := if ops[0].SetPublish? && ops[0].manifest == manifest
                  then (if ops[0].publish then None else Some([])) else publish;
      FinalPublishDecided(manifest, next, rest, value);
    }
  }

  /** A package whose manifest no operation names stays as it is. */
  lemma {:induction false} EditsOnlyNamed(p: Package, ops: seq<Operation>)
    requires forall op :: op in ops ==> p.manifest != Some(op.manifest)
    ensures EditAll(p, ops) == p
    decreases |ops|
  {
    if ops != [] {
      assert forall op :: op in ops[1..] ==> op in ops;
      EditsOnlyNamed(p, ops[1..]);
    }
  }

  // ----- The workspace after a plan

  /** The same packages in the same places, up to `publish` and the requirements. */
  ghost predicate SameShape(md: Metadata, after: Metadata) {
    && after.nodes == md.nodes && after.workspace == md.workspace
    && |after.packages| == |md.packages|
    && forall i :: 0 <= i < |md.packages| ==> SameBut(md.packages[i], after.packages[i])
  }

  /** Lookups by id, by directory and by name find the same places. */
  lemma {:induction false} SameLookups(a: seq<Package>, b: seq<Package>, id: string, path: string, names: seq<string>)
    requires |a| == |b| && forall i :: 0 <= i < |a| ==> SameBut(a[i], b[i])
    ensures match (Find(a, id), Find(b, id))
            case (Some(p), Some(q)) => SameBut(p, q)
            case (None, None) => true
            case _ => false
    ensures match (PathTarget(a, path), PathTarget(b, path))
            case (Some(p), Some(q)) => SameBut(p, q)
            case (None, None) => true
            case _ => false
    ensures RootIds(a, names) == RootIds(b, names)
    decreases |a|
  {
    if a != [] {
      SameLookups(a[1..], b[1..], id, path, names);
    }
  }

  lemma SameRoots(md: Metadata, after: Metadata, names: seq<string>)
    requires SameShape(md, after)
    ensures RootIds(after.packages, names) == RootIds(md.packages, names)
    ensures MissingRoot(after.packages, names) <==> MissingRoot(md.packages, names)
  {
    hide SameBut;
    SameLookups(md.packages, after.packages, "", "", names);
    forall n
      ensures HasName(md.packages, n) <==> HasName(after.packages, n)
    {
      SameNames(md.packages, after.packages, n);
    }
  }

  lemma SameNames(a: seq<Package>, b: seq<Package>, n: string)
    requires |a| == |b| && forall i :: 0 <= i < |a| ==> SameBut(a[i], b[i])
    ensures HasName(a, n) <==> HasName(b, n)
  {
    if p :| p in a && p.name == n {
      var i :| 0 <= i < |a| && a[i] == p;
      assert b[i] in b && b[i].name == n;
    }
    if q :| q in b && q.name == n {
      var i :| 0 <= i < |b| && b[i] == q;
      assert a[i] in a && a[i].name == n;
    }
  }

  lemma SameWalk(md: Metadata, after: Metadata, roots: seq<string>, walk: seq<string>, id: string)
    requires md.nodes == after.nodes
    ensures WalkTo(md, roots, walk, id) <==> WalkTo(after, roots, walk, id)
  {
    hide ShippedTargets;
    assert forall x :: Targets(md, x) == Targets(after, x);
  }

  lemma SameClosure(md: Metadata, after: Metadata, roots: seq<string>, closure: set<string>)
    requires md.nodes == after.nodes
    ensures IsClosure(md, roots, closure) <==> IsClosure(after, roots, closure)
  {
    hide WalkTo;
    forall id
      ensures Reachable(md, roots, id) <==> Reachable(after, roots, id)
    {
      forall walk
        ensures WalkTo(md, roots, walk, id) <==> WalkTo(after, roots, walk, id)
      {
        SameWalk(md, after, roots, walk, id);
      }
    }
  }

  lemma SameInternal(md: Metadata, after: Metadata, closure: set<string>)
    requires SameShape(md, after)
    ensures Internal(after, closure) == Internal(md, closure)
  {
    forall id
      ensures id in Internal(after, closure) <==> id in Internal(md, closure)
    {
      SameLookups(md.packages, after.packages, id, "", []);
    }
  }

  lemma ShapeKeepsGraph(md: Metadata, after: Metadata, names: seq<string>, closure: set<string>)
    requires SameShape(md, after)
    ensures HasClosure(after, names, closure) <==> HasClosure(md, names, closure)
    ensures Internal(after, closure) == Internal(md, closure)
  {
    hide MissingRoot, IsClosure;
    SameRoots(md, after, names);
    SameClosure(md, after, RootIds(md.packages, names), closure);
    SameInternal(md, after, closure);
  }

  /** A dependency stands for the same package, at the same version. */
  lemma SameTarget(md: Metadata, after: Metadata, id: string, d: Dependency, e: Dependency)
    requires SameShape(md, after) && e == d.(req := e.req)
    ensures match (ActiveTarget(md, id, d), ActiveTarget(after, id, e))
            case (Some(p), Some(q)) => p.id == q.id && p.version == q.version
            case (None, None) => true
            case _ => false
  {
    hide ShippedTargets;
    if d.path.Some? {
      SameLookups(md.packages, after.packages, "", d.path.value, []);
    }
  }

  /** The edits keep what Cargo promises. */
  lemma EditsKeepConsistent(md: Metadata, ops: seq<Operation>)
    requires Consistent(md)
    ensures Consistent(AppliedAll(md, ops))
  {
    hide EditAll, AppliedAll, SameBut, Find;
    var after := AppliedAll(md, ops);
    AppliedPackages(md, ops);
    EditsKeepShape(md, ops);
    forall p, q | p in after.packages && q in after.packages
        && (p.id == q.id || (p.manifest.Some? && p.manifest == q.manifest))
      ensures p == q
    {
      var i :| 0 <= i < |after.packages| && after.packages[i] == p;
      var j :| 0 <= j < |after.packages| && after.packages[j] == q;
      SameIdentity(md.packages[i], p);
      SameIdentity(md.packages[j], q);
      assert md.packages[i] in md.packages && md.packages[j] in md.packages;
      assert md.packages[i] == md.packages[j];
    }
    forall id | id in after.workspace
      ensures Find(after.packages, id).Some?
    {
      SameLookups(md.packages, after.packages, id, "", []);
    }
  }

  lemma SameIdentity(p: Package, q: Package)
    requires SameBut(p, q)
    ensures q.id == p.id && q.name == p.name && q.version == p.version && q.manifest == p.manifest
    ensures q.lines == p.lines
  {
  }

  /** Edits leave the packages in place. */
  lemma EditsKeepShape(md: Metadata, ops: seq<Operation>)
    ensures SameShape(md, AppliedAll(md, ops))
  {
    hide SameBut, EditAll, FinalReq;
    AppliedPackages(md, ops);
    forall i | 0 <= i < |md.packages|
      ensures SameBut(md.packages[i], AppliedAll(md, ops).packages[i])
    {
      EditAllMeans(md.packages[i], ops);
    }
  }

  /** Every package after the edits comes from one before them. */
  lemma EditedFrom(md: Metadata, ops: seq<Operation>, q: Package) returns (p: Package)
    requires q in AppliedAll(md, ops).packages
    ensures p in md.packages && SameBut(p, q) && q.publish == FinalPublish(p.manifest, p.publish, ops)
    ensures forall k :: 0 <= k < |p.dependencies| ==>
              k < |q.dependencies| && q.dependencies[k].req == FinalReq(p, k, p.dependencies[k].req, ops)
  {
    hide EditAll, AppliedAll, FinalReq;
    AppliedPackages(md, ops);
    var i :| 0 <= i < |md.packages| && AppliedAll(md, ops).packages[i] == q;
    p := md.packages[i];
    EditAllMeans(p, ops);
  }

  /** Every package before the edits is still there. */
  lemma EditedTo(md: Metadata, ops: seq<Operation>, p: Package) returns (q: Package)
    requires p in md.packages
    ensures q in AppliedAll(md, ops).packages && SameBut(p, q)
    ensures forall k :: 0 <= k < |p.dependencies| ==>
              k < |q.dependencies| && q.dependencies[k].req == FinalReq(p, k, p.dependencies[k].req, ops)
  {
    hide EditAll, AppliedAll, FinalReq;
    AppliedPackages(md, ops);
    var i :| 0 <= i < |md.packages| && md.packages[i] == p;
    q := AppliedAll(md, ops).packages[i];
    EditAllMeans(p, ops);
  }

  /** An edit leaves every line where it is, so what later edits find does not change. */
  lemma EditsKeepLines(md: Metadata, ops: seq<Operation>, op: Operation)
    ensures Finds(AppliedAll(md, ops), op) <==> Finds(md, op)
  {
    hide AppliedAll, SameBut, FirstLine, FinalReq;
    var after := AppliedAll(md, ops);
    if Finds(md, op) {
      var p :| p in md.packages && p.manifest == Some(op.manifest)
          && (op.SetPathVersion? ==> FirstLine(p.lines, op.dependency).Some?);
      var q := EditedTo(md, ops, p);
      SameIdentity(p, q);
    }
    if Finds(after, op) {
      var q :| q in after.packages && q.manifest == Some(op.manifest)
          && (op.SetPathVersion? ==> FirstLine(q.lines, op.dependency).Some?);
      var p := EditedFrom(md, ops, q);
      SameIdentity(p, q);
    }
  }

  // ----- What edits say about the manifests' lines

  /** The first line with a key. */
  ghost predicate FirstUnder(lines: seq<Line>, n: nat, key: string) {
    n < |lines| && lines[n].key == key && forall m :: 0 <= m < n ==> lines[m].key != key
  }

  /** The operation is on the package's manifest, and the first line with its key holds the version of entry `k`. */
  ghost predicate SetsEntry(p: Package, k: nat, op: Operation) {
    && op.SetPathVersion? && p.manifest == Some(op.manifest)
    && exists n: nat :: FirstUnder(p.lines, n, op.dependency) && p.lines[n].entry == Some(k)
  }

  /** The operation has a manifest to edit and, for a version, a line with its key. */
  ghost predicate HasLine(md: Metadata, op: Operation) {
    exists i :: && 0 <= i < |md.packages| && md.packages[i].manifest == Some(op.manifest)
                && (op.SetPathVersion? ==> exists n: nat :: FirstUnder(md.packages[i].lines, n, op.dependency))
  }

  ghost predicate SetsFlag(p: Package, op: Operation) {
    op.SetPublish? && p.manifest == Some(op.manifest)
  }

  /** Operation number `m` is the last one that sets entry `k`. */
  ghost predicate LastSetter(p: Package, k: nat, ops: seq<Operation>, m: nat) {
    && m < |ops| && ops[m].SetPathVersion? && SetsEntry(p, k, ops[m])
    && forall later :: m < later < |ops| ==> !SetsEntry(p, k, ops[later])
  }

  ghost predicate LastFlag(p: Package, ops: seq<Operation>, m: nat) {
    && m < |ops| && ops[m].SetPublish? && SetsFlag(p, ops[m])
    && forall later :: m < later < |ops| ==> !SetsFlag(p, ops[later])
  }

  lemma {:induction false} FirstLineIs(lines: seq<Line>, key: string) returns (n: nat)
    requires FirstLine(lines, key).Some?
    ensures FirstUnder(lines, n, key) && FirstLine(lines, key) == Some(lines[n])
  {
    if lines[0].key == key {
      n := 0;
    } else {
      var later := FirstLineIs(lines[1..], key);
      n := later + 1;
      forall m | 0 <= m < n
        ensures lines[m].key != key
      {
        assert m > 0 ==> lines[m] == lines[1..][m - 1];
      }
    }
  }

  lemma SetsMeans(p: Package, k: nat, op: Operation)
    requires k < |p.dependencies|
    ensures Sets(p, k, op) <==> SetsEntry(p, k, op)
  {
    if op.SetPathVersion? {
      if FirstLine(p.lines, op.dependency).Some? {
        var n := FirstLineIs(p.lines, op.dependency);
        assert forall m: nat :: FirstUnder(p.lines, m, op.dependency) ==> m == n;
      } else {
        forall m: nat
          ensures !FirstUnder(p.lines, m, op.dependency)
        {
          assert m < |p.lines| ==> p.lines[m] in p.lines;
        }
      }
    }
  }

  lemma FindsMeans(md: Metadata, op: Operation)
    ensures Finds(md, op) <==> HasLine(md, op)
  {
    hide FirstLine;
    forall p | p in md.packages && op.SetPathVersion?
      ensures FirstLine(p.lines, op.dependency).Some? <==> exists n: nat :: FirstUnder(p.lines, n, op.dependency)
    {
      if FirstLine(p.lines, op.dependency).Some? {
        var n := FirstLineIs(p.lines, op.dependency);
      }
    }
    if Finds(md, op) {
      var p :| p in md.packages && p.manifest == Some(op.manifest)
          && (op.SetPathVersion? ==> FirstLine(p.lines, op.dependency).Some?);
      var i :| 0 <= i < |md.packages| && md.packages[i] == p;
    }
  }

  /** The requirement is what the last operation that sets the entry says, and the old one without such an operation. */
  lemma {:induction false} FinalReqMeans(p: Package, k: nat, req: string, ops: seq<Operation>)
    requires k < |p.dependencies|
    ensures forall m: nat :: LastSetter(p, k, ops, m) ==> FinalReq(p, k, req, ops) == ops[m].expected
    ensures (forall m: nat :: m < |ops| ==> !SetsEntry(p, k, ops[m])) ==> FinalReq(p, k, req, ops) == req
    decreases |ops|
  {
    hide SetsEntry;
    if ops != [] {
      var rest := ops[1..];
      SetsMeans(p, k, ops[0]);
      var next := if Sets(p, k, ops[0]) then ops[0].expected else req;
      FinalReqMeans(p, k, next, rest);
      hide Sets;
      forall m: nat | LastSetter(p, k, ops, m)
        ensures FinalReq(p, k, req, ops) == ops[m].expected
      {
        if m == 0 {
          assert forall later: nat :: later < |rest| ==> rest[later] == ops[later + 1];
        } else {
          assert LastSetter(p, k, rest, m - 1);
        }
      }
    }
  }

  lemma {:induction false} FinalPublishMeans(p: Package, publish: Option<seq<string>>, ops: seq<Operation>)
    ensures forall m: nat :: LastFlag(p, ops, m) ==>
              FinalPublish(p.manifest, publish, ops) == if ops[m].publish then None else Some([])
    ensures (forall m: nat :: m < |ops| ==> !SetsFlag(p, ops[m])) ==> FinalPublish(p.manifest, publish, ops) == publish
    decreases |ops|
  {
    if ops != [] {
      var rest := ops[1..];
      var next := if SetsFlag(p, ops[0]) then (if ops[0].publish then None else Some([])) else publish;
      FinalPublishMeans(p, next, rest);
      assert FinalPublish(p.manifest, publish, ops) == FinalPublish(p.manifest, next, rest);
      hide SetsFlag;
      forall m: nat | LastFlag(p, ops, m)
        ensures FinalPublish(p.manifest, publish, ops) == if ops[m].publish then None else Some([])
      {
        if m == 0 {
          assert forall later: nat :: later < |rest| ==> rest[later] == ops[later + 1];
        } else {
          assert LastFlag(p, rest, m - 1);
        }
      }
    }
  }

  /** What operations that were carried out make of package `p`. */
  ghost predicate EditedBy(p: Package, q: Package, ops: seq<Operation>) {
    && q == p.(publish := q.publish, dependencies := q.dependencies) && |q.dependencies| == |p.dependencies|
    && (forall k :: 0 <= k < |p.dependencies| ==>
          && q.dependencies[k] == p.dependencies[k].(req := q.dependencies[k].req)
          && (forall m: nat :: LastSetter(p, k, ops, m) ==> q.dependencies[k].req == ops[m].expected)
          && ((forall m: nat :: m < |ops| ==> !SetsEntry(p, k, ops[m])) ==> q.dependencies[k] == p.dependencies[k]))
    && (forall m: nat :: LastFlag(p, ops, m) ==> q.publish == if ops[m].publish then None else Some([]))
    && ((forall m: nat :: m < |ops| ==> !SetsFlag(p, ops[m])) ==> q.publish == p.publish)
  }

  lemma EditAllIs(p: Package, ops: seq<Operation>)
    ensures EditedBy(p, EditAll(p, ops), ops)
  {
    hide EditAll, SetsEntry, SetsFlag;
    EditAllMeans(p, ops);
    FinalPublishMeans(p, p.publish, ops);
    forall k | 0 <= k < |p.dependencies|
      ensures forall m: nat :: LastSetter(p, k, ops, m) ==> EditAll(p, ops).dependencies[k].req == ops[m].expected
      ensures (forall m: nat :: m < |ops| ==> !SetsEntry(p, k, ops[m])) ==>
                EditAll(p, ops).dependencies[k].req == p.dependencies[k].req
    {
      FinalReqMeans(p, k, p.dependencies[k].req, ops);
    }
  }

  /**
   Applying carries out the operations up to the first that has no line to edit. In each package, a requirement or a
   flag becomes what the last of them on it says, and everything else stays.
   */
  lemma LeftBehindMeans(md: Metadata, ops: seq<Operation>) returns (n: nat)
    ensures n <= |ops| && (forall m :: 0 <= m < n ==> HasLine(md, ops[m])) && (n < |ops| ==> !HasLine(md, ops[n]))
    ensures var after := LeftBehind(md, ops);
            && after.nodes == md.nodes && after.workspace == md.workspace && |after.packages| == |md.packages|
            && forall i :: 0 <= i < |md.packages| ==> EditedBy(md.packages[i], after.packages[i], ops[..n])
  {
    hide EditAll, HasLine, Finds, EditedBy, AppliedAll;
    n := Steps(md, ops);
    AppliedPackages(md, ops[..n]);
    forall op
      ensures Finds(md, op) <==> HasLine(md, op)
    {
      FindsMeans(md, op);
    }
    forall i | 0 <= i < |md.packages|
      ensures EditedBy(md.packages[i], EditAll(md.packages[i], ops[..n]), ops[..n])
    {
      EditAllIs(md.packages[i], ops[..n]);
    }
  }
}
