/** The closure auditor: an independent gate over the same metadata. */
module PublishAudit {
  import opened Wrappers
  import opened PublishGraph
  import opened PublishPlan

  /** The auditor's complaints; the printed messages show the names, these also identify the package. */
  datatype Finding =
    | ReachableUnpublishable(package: string)
    | LeavingDependency(package: string, dependency: string)
    | WrongVersion(package: string, dependency: string, target: string, req: string, expected: string)
    | OutsidePublishable(package: string)

  predicate PackagePublishable(p: Package) {
    p.publish.None?
  }

  // ----- What the auditor complains about

  ghost predicate DependencyFinding(md: Metadata, internal: set<string>, p: Package, d: Dependency, f: Finding) {
    || (LeavesClosure(md, internal, p.id, d) && f == LeavingDependency(p.id, d.name))
    || (NeedsVersion(md, internal, p.id, d)
        && var target := ActiveTarget(md, p.id, d).value;
           f == WrongVersion(p.id, d.name, target.name, d.req, ExactVersion(target)))
  }

  ghost predicate InternalFinding(md: Metadata, internal: set<string>, p: Package, f: Finding) {
    && p in md.packages && p.id in internal
    && ((!PackagePublishable(p) && f == ReachableUnpublishable(p.id))
        || exists d :: d in p.dependencies && DependencyFinding(md, internal, p, d, f))
  }

  ghost predicate OutsideFinding(md: Metadata, internal: set<string>, p: Package, f: Finding) {
    p in md.packages && p.id in md.workspace && p.id !in internal && PackagePublishable(p)
        && f == OutsidePublishable(p.id)
  }

  ghost predicate InReport(md: Metadata, internal: set<string>, f: Finding) {
    exists p :: InternalFinding(md, internal, p, f) || OutsideFinding(md, internal, p, f)
  }

  // ----- The complaints about each package, in order

  function EntryFinding(md: Metadata, internal: set<string>, p: Package, d: Dependency): seq<Finding> {
    match ActiveTarget(md, p.id, d)
    case None => []
    case Some(target) =>
      if target.id !in internal then [LeavingDependency(p.id, d.name)]
      else if d.req != ExactVersion(target) then [WrongVersion(p.id, d.name, target.name, d.req, ExactVersion(target))]
      else []
  }

  /** The complaints about the entries `ds` of package `p`: one for each faulty entry, in their order. */
  function EntryFindings(md: Metadata, internal: set<string>, p: Package, ds: seq<Dependency>): seq<Finding> {
    if ds == [] then [] else EntryFinding(md, internal, p, ds[0]) + EntryFindings(md, internal, p, ds[1..])
  }

  /** The complaints about a package, whatever its place in the workspace. */
  function FindingsFor(md: Metadata, internal: set<string>, p: Package): seq<Finding> {
    if p.id in internal
    then
      (if PackagePublishable(p) then [] else [ReachableUnpublishable(p.id)])
      + EntryFindings(md, internal, p, p.dependencies)
    else if p.id in md.workspace && PackagePublishable(p) then [OutsidePublishable(p.id)]
    else []
  }

  lemma EntryFindingMeans(md: Metadata, internal: set<string>, p: Package, d: Dependency)
    ensures |EntryFinding(md, internal, p, d)| <= 1
    ensures forall f :: f in EntryFinding(md, internal, p, d) <==> DependencyFinding(md, internal, p, d, f)
  {
    hide ActiveTarget;
  }

  lemma {:induction false} EntryFindingsMeans(md: Metadata, internal: set<string>, p: Package, ds: seq<Dependency>)
    ensures forall f :: f in EntryFindings(md, internal, p, ds) <==>
              exists d :: d in ds && DependencyFinding(md, internal, p, d, f)
  {
    hide EntryFinding, DependencyFinding;
    if ds == [] {
    } else {
      EntryFindingsMeans(md, internal, p, ds[1..]);
      EntryFindingMeans(md, internal, p, ds[0]);
      assert forall d :: d in ds <==> d == ds[0] || d in ds[1..];
      forall f
        ensures f in EntryFindings(md, internal, p, ds) <==>
                exists d :: d in ds && DependencyFinding(md, internal, p, d, f)
      {
        assert f in EntryFindings(md, internal, p, ds) <==>
          DependencyFinding(md, internal, p, ds[0], f) || f in EntryFindings(md, internal, p, ds[1..]);
      }
    }
  }

  lemma FindingsForMeans(md: Metadata, internal: set<string>, p: Package)
    requires p in md.packages
    ensures forall f :: f in FindingsFor(md, internal, p) <==>
              InternalFinding(md, internal, p, f) || OutsideFinding(md, internal, p, f)
  {
    hide DependencyFinding, EntryFindings;
    EntryFindingsMeans(md, internal, p, p.dependencies);
  }

  /** A finding about a dependency names the package and the dependency. */
  lemma FindingNames(md: Metadata, internal: set<string>, p: Package, d: Dependency, f: Finding)
    requires DependencyFinding(md, internal, p, d, f)
    ensures f.LeavingDependency? || f.WrongVersion?
    ensures f.dependency == d.name && f.package == p.id
  {
    hide ActiveTarget;
  }

  lemma FindingPackage(md: Metadata, internal: set<string>, p: Package, f: Finding)
    requires InternalFinding(md, internal, p, f) || OutsideFinding(md, internal, p, f)
    ensures p in md.packages && f.package == p.id && (f.OutsidePublishable? <==> OutsideFinding(md, internal, p, f))
  {
    hide DependencyFinding;
    if InternalFinding(md, internal, p, f) && f != ReachableUnpublishable(p.id) {
      var d :| d in p.dependencies && DependencyFinding(md, internal, p, d, f);
      FindingNames(md, internal, p, d, f);
    }
  }

  // ----- The report

  /** The findings about one package, in their order. */
  function About(findings: seq<Finding>, id: string): seq<Finding> {
    if findings == [] then []
    else (if findings[0].package == id then [findings[0]] else []) + About(findings[1..], id)
  }

  lemma AboutUnfold(findings: seq<Finding>, id: string)
    ensures About(findings, id)
         == if findings == [] then []
            else (if findings[0].package == id then [findings[0]] else []) + About(findings[1..], id)
  {
  }

  lemma {:induction false} AboutConcat(a: seq<Finding>, b: seq<Finding>, id: string)
    ensures About(a + b, id) == About(a, id) + About(b, id)
  {
    hide About;
    AboutUnfold(a, id);
    if a == [] {
      assert a + b == b;
    } else {
      AboutUnfold(a + b, id);
      assert (a + b)[1..] == a[1..] + b;
      AboutConcat(a[1..], b, id);
      ConcatAssociates(if a[0].package == id then [a[0]] else [], About(a[1..], id), About(b, id));
    }
  }

  lemma {:induction false} AboutHolds(findings: seq<Finding>, id: string)
    ensures forall f :: f in About(findings, id) <==> f in findings && f.package == id
  {
    if findings != [] {
      AboutHolds(findings[1..], id);
      assert forall f :: f in findings <==> f == findings[0] || f in findings[1..];
    }
  }

  lemma {:induction false} AllAbout(findings: seq<Finding>, id: string)
    requires forall f :: f in findings ==> f.package == id
    ensures About(findings, id) == findings
  {
    if findings != [] {
      AllAbout(findings[1..], id);
    }
  }

  lemma {:induction false} NoneAbout(findings: seq<Finding>, id: string)
    requires forall f :: f in findings ==> f.package != id
    ensures About(findings, id) == []
  {
    if findings != [] {
      NoneAbout(findings[1..], id);
    }
  }

  /** The findings about the packages in `members`: each package's own, as often and in the order they occur. */
  ghost predicate Covers(md: Metadata, internal: set<string>, members: set<string>, findings: seq<Finding>) {
    && (forall f :: f in findings ==> f.package in members)
    && (forall p :: p in md.packages && p.id in members ==>
          About(findings, p.id) == FindingsFor(md, internal, p))
  }

  function NameOf(md: Metadata, id: string): string {
    match Find(md.packages, id)
    case Some(p) => p.name
    case None => ""
  }

  /** The auditor's order: the closure first, by name, then the rest of the workspace, by name. */
  predicate NotAfter(md: Metadata, internal: set<string>, a: string, b: string) {
    if a in internal then b in internal ==> StringLeq(NameOf(md, a), NameOf(md, b))
    else b !in internal && StringLeq(NameOf(md, a), NameOf(md, b))
  }

  ghost predicate InOrder(md: Metadata, internal: set<string>, findings: seq<Finding>) {
    forall i, j :: 0 <= i < j < |findings| ==> NotAfter(md, internal, findings[i].package, findings[j].package)
  }

  datatype Report = Report(closure: set<string>, internal: set<string>, findings: seq<Finding>)

  ghost predicate IsReport(md: Metadata, names: seq<string>, r: Report) {
    && HasClosure(md, names, r.closure)
    && r.internal == Internal(md, r.closure)
    && Covers(md, r.internal, md.workspace, r.findings)
    && InOrder(md, r.internal, r.findings)
  }

  // ----- The auditor

  /** The first part of the loop body for an internal package, then the loop over its dependencies. */
  method AuditPackage(md: Metadata, internal: set<string>, p: Package) returns (findings: seq<Finding>)
    requires p.id in internal
    ensures findings == FindingsFor(md, internal, p)
  {
    hide ActiveTarget, EntryFindings;
    findings := [];
    if !PackagePublishable(p) {
      findings := findings + [ReachableUnpublishable(p.id)];
    }
    assert p.dependencies[0..] == p.dependencies;
    for i := 0 to |p.dependencies|
      invariant findings + EntryFindings(md, internal, p, p.dependencies[i..]) == FindingsFor(md, internal, p)
    {
      var d := p.dependencies[i];
      EntryFindingsStep(md, internal, p, i, findings);
      var target := ActiveTarget(md, p.id, d);
      if target.None? {
        continue;
      }
      if target.value.id !in internal {
        findings := findings + [LeavingDependency(p.id, d.name)];
        continue;
      }
      var expected := ExactVersion(target.value);
      if d.req != expected {
        findings := findings + [WrongVersion(p.id, d.name, target.value.name, d.req, expected)];
      }
    }
    EntryFindingsEnd(md, internal, p, findings);
  }

  lemma EntryFindingsStep(md: Metadata, internal: set<string>, p: Package, i: nat, before: seq<Finding>)
    requires i < |p.dependencies|
    ensures before + EntryFindings(md, internal, p, p.dependencies[i..])
         == before + EntryFinding(md, internal, p, p.dependencies[i])
            + EntryFindings(md, internal, p, p.dependencies[i + 1..])
    ensures EntryFinding(md, internal, p, p.dependencies[i]) == [] ==>
              EntryFindings(md, internal, p, p.dependencies[i..])
              == EntryFindings(md, internal, p, p.dependencies[i + 1..])
  {
    hide EntryFinding;
    assert p.dependencies[i..][1..] == p.dependencies[i + 1..];
  }

  lemma EntryFindingsEnd(md: Metadata, internal: set<string>, p: Package, findings: seq<Finding>)
    ensures findings + EntryFindings(md, internal, p, p.dependencies[|p.dependencies|..]) == findings
  {
  }

  lemma CoversNothing(md: Metadata, internal: set<string>)
    ensures Covers(md, internal, {}, []) && InOrder(md, internal, [])
  {
  }

  lemma CoversOneMore(md: Metadata, internal: set<string>, members: set<string>, p: Package, findings: seq<Finding>)
    requires Consistent(md) && p in md.packages && p.id !in members && Covers(md, internal, members, findings)
    ensures Covers(md, internal, members + {p.id}, findings + FindingsFor(md, internal, p))
  {
    hide InternalFinding, OutsideFinding, FindingsFor, Find, About;
    var mine := FindingsFor(md, internal, p);
    AboutPackage(md, internal, p);
    forall q | q in md.packages && q.id in members + {p.id}
      ensures About(findings + mine, q.id) == FindingsFor(md, internal, q)
    {
      AboutConcat(findings, mine, q.id);
      if q.id == p.id {
        NoneAbout(findings, q.id);
        AllAbout(mine, q.id);
      } else {
        NoneAbout(mine, q.id);
      }
    }
  }

  lemma AboutPackage(md: Metadata, internal: set<string>, p: Package)
    requires p in md.packages
    ensures forall f :: f in FindingsFor(md, internal, p) ==> f.package == p.id
  {
    hide InternalFinding, OutsideFinding, FindingsFor;
    FindingsForMeans(md, internal, p);
    forall f | f in FindingsFor(md, internal, p)
      ensures f.package == p.id
    {
      FindingPackage(md, internal, p, f);
    }
  }

  lemma OrderedOneMore(md: Metadata, internal: set<string>, members: set<string>, p: Package, findings: seq<Finding>)
    requires p in md.packages && Covers(md, internal, members, findings) && InOrder(md, internal, findings)
    requires forall id :: id in members ==> NotAfter(md, internal, id, p.id)
    ensures InOrder(md, internal, findings + FindingsFor(md, internal, p))
  {
    hide FindingsFor, NotAfter, About;
    var mine := FindingsFor(md, internal, p);
    AboutPackage(md, internal, p);
    NotAfterItself(md, internal, p.id);
    var all := findings + mine;
    forall i, j | 0 <= i < j < |all|
      ensures NotAfter(md, internal, all[i].package, all[j].package)
    {
      if i < |findings| <= j {
        assert findings[i] in findings && mine[j - |findings|] in mine;
      } else if |findings| <= i {
        assert mine[i - |findings|] in mine && mine[j - |findings|] in mine;
      }
    }
  }

  lemma NotAfterItself(md: Metadata, internal: set<string>, id: string)
    ensures NotAfter(md, internal, id, id)
  {
    StringLeqTotal(NameOf(md, id), NameOf(md, id));
  }

  predicate FirstByName(md: Metadata, ids: set<string>, id: string) {
    id in ids && forall other :: other in ids ==> StringLeq(NameOf(md, id), NameOf(md, other))
  }

  /** A non-empty set of packages has one whose name is not behind any other's. */
  lemma {:induction false} SomeFirstByName(md: Metadata, ids: set<string>)
    requires ids != {}
    ensures exists id :: FirstByName(md, ids, id)
    decreases |ids|
  {
    hide StringLeq, NameOf;
    var x :| x in ids;
    var rest := ids - {x};
    StringLeqTotal(NameOf(md, x), NameOf(md, x));
    if rest == {} {
      assert ids == {x};
      assert FirstByName(md, ids, x);
    } else {
      SomeFirstByName(md, rest);
      var y :| FirstByName(md, rest, y);
      StringLeqTotal(NameOf(md, x), NameOf(md, y));
      if StringLeq(NameOf(md, x), NameOf(md, y)) {
        forall other | other in ids
          ensures StringLeq(NameOf(md, x), NameOf(md, other))
        {
          if other != x {
            StringLeqTransitive(NameOf(md, x), NameOf(md, y), NameOf(md, other));
          }
        }
        assert FirstByName(md, ids, x);
      } else {
        assert FirstByName(md, ids, y);
      }
    }
  }

  /** The next package in the order of names; packages of the same name come in any order. */
  method NextByName(md: Metadata, ids: set<string>) returns (id: string)
    requires ids != {}
    ensures FirstByName(md, ids, id)
  {
    SomeFirstByName(md, ids);
    id :| id in ids && FirstByName(md, ids, id);
  }

  /** `main`, up to printing. */
  method Audit(md: Metadata, names: seq<string>) returns (r: Result<Report, Error>)
    requires Consistent(md)
    ensures r.Success? ==> IsReport(md, names, r.value)
    ensures r.Failure? ==> (r.error == MissingRoots || r.error == NoNode) && PlanFails(md, names, r.error)
  {
    hide Covers, InOrder, Reachable, IsClosure, StringLeq, NameOf, MissingRoot, Internal, EntryFindings;
    if MissingRoot(md.packages, names) {
      return Failure(MissingRoots);
    }
    var closure :- ShippedClosure(md, RootIds(md.packages, names));
    var internal := Internal(md, closure);
    var findings: seq<Finding> := [];
    var remaining := internal;
    CoversNothing(md, internal);
    assert internal - remaining == {};
    while remaining != {}
      invariant remaining <= internal
      invariant Covers(md, internal, internal - remaining, findings) && InOrder(md, internal, findings)
      invariant forall a, b :: a in internal - remaining && b in remaining ==> NotAfter(md, internal, a, b)
      decreases remaining
    {
      var id := NextByName(md, remaining);
      var p := Find(md.packages, id).value;
      var more := AuditPackage(md, internal, p);
      CoversOneMore(md, internal, internal - remaining, p, findings);
      OrderedOneMore(md, internal, internal - remaining, p, findings);
      assert internal - (remaining - {id}) == (internal - remaining) + {id};
      remaining := remaining - {id};
      findings := findings + more;
    }
    var outside := md.workspace - internal;
    remaining := outside;
    assert internal + (outside - remaining) == internal == internal - {};
    while remaining != {}
      invariant remaining <= outside
      invariant Covers(md, internal, internal + (outside - remaining), findings) && InOrder(md, internal, findings)
      invariant forall a, b :: a in outside - remaining && b in remaining ==> NotAfter(md, internal, a, b)
      decreases remaining
    {
      var id := NextByName(md, remaining);
      var p := Find(md.packages, id).value;
      var more: seq<Finding> := [];
      if PackagePublishable(p) {
        more := [OutsidePublishable(p.id)];
      }
      assert more == FindingsFor(md, internal, p);
      ghost var members := internal + (outside - remaining);
      CoversOneMore(md, internal, members, p, findings);
      OrderedOneMore(md, internal, members, p, findings);
      assert internal + (outside - (remaining - {id})) == members + {id};
      remaining := remaining - {id};
      findings := findings + more;
    }
    assert internal + (outside - remaining) == md.workspace;
    return Success(Report(closure, internal, findings));
  }

  /** A report holds exactly the findings the metadata call for. */
  lemma ReportHoldsExactly(md: Metadata, names: seq<string>, r: Report, f: Finding)
    requires Consistent(md) && IsReport(md, names, r)
    ensures f in r.findings <==> InReport(md, r.internal, f)
  {
    hide HasClosure, Internal, InternalFinding, OutsideFinding, FindingsFor, About, InOrder;
    AboutHolds(r.findings, f.package);
    if f in r.findings {
      var p := Find(md.packages, f.package).value;
      FindingsForMeans(md, r.internal, p);
    }
    if InReport(md, r.internal, f) {
      var p :| InternalFinding(md, r.internal, p, f) || OutsideFinding(md, r.internal, p, f);
      FindingPackage(md, r.internal, p, f);
      FindingInWorkspace(md, r.closure, p, f);
      FindingsForMeans(md, r.internal, p);
    }
  }

  lemma FindingInWorkspace(md: Metadata, closure: set<string>, p: Package, f: Finding)
    requires InternalFinding(md, Internal(md, closure), p, f) || OutsideFinding(md, Internal(md, closure), p, f)
    ensures p.id in md.workspace
  {
    hide DependencyFinding;
  }
}
