/**
 What plans, reports and refusals say about the metadata themselves: package by package, entry by entry and edge by
 edge, without the functions the two scripts are made of.
 */
module PublishMeaning {
  import opened Wrappers
  import opened PublishGraph
  import opened PublishPlan
  import opened PublishAudit

  // ----- The metadata

  /** Some edge between the two packages is for more than tests. */
  ghost predicate Ships(md: Metadata, id: string, target: string) {
    && id in md.nodes
    && exists e, k :: 0 <= e < |md.nodes[id]| && 0 <= k < |md.nodes[id][e].kinds|
                      && md.nodes[id][e].pkg == target && md.nodes[id][e].kinds[k] != Dev
  }

  /** A chain of such edges from a package with a selected name. */
  ghost predicate ShippedWalk(md: Metadata, names: seq<string>, walk: seq<string>) {
    && |walk| > 0
    && (exists r :: 0 <= r < |md.packages| && md.packages[r].id == walk[0] && md.packages[r].name in names)
    && forall i :: 0 < i < |walk| ==> Ships(md, walk[i - 1], walk[i])
  }

  ghost predicate Shipped(md: Metadata, names: seq<string>, id: string) {
    exists walk :: ShippedWalk(md, names, walk) && walk[|walk| - 1] == id
  }

  /** Package number `i` is a shipped workspace member with a manifest below the workspace root. */
  ghost predicate Member(md: Metadata, names: seq<string>, i: nat) {
    && i < |md.packages| && md.packages[i].manifest.Some? && md.packages[i].id in md.workspace
    && Shipped(md, names, md.packages[i].id)
  }

  /** The first package in a directory. */
  ghost predicate FirstIn(packages: seq<Package>, t: nat, dir: string) {
    t < |packages| && packages[t].dir == dir && forall u :: 0 <= u < t ==> packages[u].dir != dir
  }

  /**
   Entry `k` of package `i` is no dev entry, has a path, and the first package in that directory is package `t`, to
   which an edge that ships leads.
   */
  ghost predicate StandsFor(md: Metadata, i: nat, k: nat, t: nat) {
    && i < |md.packages| && k < |md.packages[i].dependencies|
    && var d := md.packages[i].dependencies[k];
       && d.kind != Dev && d.path.Some? && FirstIn(md.packages, t, d.path.value)
       && Ships(md, md.packages[i].id, md.packages[t].id)
  }

  /** Entry `k` of the internal package `i` stands for the internal package `t`, but not at its exact version. */
  ghost predicate WrongEntry(md: Metadata, names: seq<string>, i: nat, k: nat, t: nat) {
    && Member(md, names, i) && Member(md, names, t) && StandsFor(md, i, k, t)
    && md.packages[i].dependencies[k].req != "=" + md.packages[t].version
  }

  /** Entry `k` of the internal package `i` stands for package `t`, which is not internal. */
  ghost predicate LeavingEntry(md: Metadata, names: seq<string>, i: nat, k: nat, t: nat) {
    Member(md, names, i) && StandsFor(md, i, k, t) && !Member(md, names, t)
  }

  /** Package `i` is a workspace member but not an internal one. */
  ghost predicate OtherMember(md: Metadata, names: seq<string>, i: nat) {
    i < |md.packages| && md.packages[i].id in md.workspace && !Member(md, names, i)
  }

  // ----- The graph

  lemma TargetsMeans(md: Metadata, id: string, t: string)
    ensures t in Targets(md, id) <==> Ships(md, id, t)
  {
    if id in md.nodes {
      var edges := md.nodes[id];
      if t in Targets(md, id) {
        var e :| e in edges && e.pkg == t && NormalOrBuild(e.kinds);
        var j :| 0 <= j < |edges| && edges[j] == e;
        var kind :| kind in e.kinds && kind != Dev;
        var k :| 0 <= k < |e.kinds| && e.kinds[k] == kind;
        assert edges[j].pkg == t && edges[j].kinds[k] != Dev;
      }
      if Ships(md, id, t) {
        var e, k :| 0 <= e < |edges| && 0 <= k < |edges[e].kinds| && edges[e].pkg == t && edges[e].kinds[k] != Dev;
        assert edges[e].kinds[k] in edges[e].kinds;
        assert edges[e] in edges && NormalOrBuild(edges[e].kinds);
      }
    }
  }

  lemma RootMeans(md: Metadata, names: seq<string>, id: string)
    ensures id in RootIds(md.packages, names) <==>
              exists r :: 0 <= r < |md.packages| && md.packages[r].id == id && md.packages[r].name in names
  {
  }

  /** Reachability as the scripts compute it is the chain of shipped edges. */
  lemma ReachableMeans(md: Metadata, names: seq<string>, id: string)
    ensures Reachable(md, RootIds(md.packages, names), id) <==> Shipped(md, names, id)
  {
    hide Targets, Ships, RootIds;
    var roots := RootIds(md.packages, names);
    forall walk
      ensures WalkTo(md, roots, walk, id) <==> ShippedWalk(md, names, walk) && walk[|walk| - 1] == id
    {
      if walk != [] {
        RootMeans(md, names, walk[0]);
        forall i | 0 < i < |walk|
          ensures walk[i] in Targets(md, walk[i - 1]) <==> Ships(md, walk[i - 1], walk[i])
        {
          TargetsMeans(md, walk[i - 1], walk[i]);
        }
      }
    }
  }

  /** The internal packages of a closure. */
  lemma InternalMeans(md: Metadata, names: seq<string>, closure: set<string>, i: nat)
    requires Consistent(md) && IsClosure(md, RootIds(md.packages, names), closure) && i < |md.packages|
    ensures md.packages[i].id in Internal(md, closure) <==> Member(md, names, i)
  {
    hide Reachable, Shipped, RootIds;
    ReachableMeans(md, names, md.packages[i].id);
    FoundIs(md, md.packages[i]);
  }

  lemma {:induction false} TargetIsFirst(packages: seq<Package>, dir: string) returns (t: nat)
    requires PathTarget(packages, dir).Some?
    ensures FirstIn(packages, t, dir) && PathTarget(packages, dir) == Some(packages[t])
    decreases |packages|
  {
    if packages[0].dir == dir {
      t := 0;
    } else {
      var later := TargetIsFirst(packages[1..], dir);
      t := later + 1;
      forall u | 0 <= u < t
        ensures packages[u].dir != dir
      {
        assert u > 0 ==> packages[u] == packages[1..][u - 1];
      }
    }
  }

  lemma {:induction false} FirstIsTarget(packages: seq<Package>, dir: string, t: nat)
    requires FirstIn(packages, t, dir)
    ensures PathTarget(packages, dir) == Some(packages[t])
    decreases |packages|
  {
    if t > 0 {
      assert packages[0].dir != dir;
      FirstIsTarget(packages[1..], dir, t - 1);
    }
  }

  // ----- Entries

  lemma TargetOfEntry(md: Metadata, i: nat, k: nat, t: nat)
    requires StandsFor(md, i, k, t)
    ensures i < |md.packages| && k < |md.packages[i].dependencies| && t < |md.packages|
    ensures ActiveTarget(md, md.packages[i].id, md.packages[i].dependencies[k]) == Some(md.packages[t])
  {
    hide Ships, Targets, PathTarget;
    FirstIsTarget(md.packages, md.packages[i].dependencies[k].path.value, t);
    TargetsMeans(md, md.packages[i].id, md.packages[t].id);
  }

  lemma EntryOfTarget(md: Metadata, i: nat, k: nat) returns (t: nat)
    requires i < |md.packages| && k < |md.packages[i].dependencies|
    requires ActiveTarget(md, md.packages[i].id, md.packages[i].dependencies[k]).Some?
    ensures StandsFor(md, i, k, t)
  {
    hide Ships, Targets, PathTarget;
    t := TargetIsFirst(md.packages, md.packages[i].dependencies[k].path.value);
    TargetsMeans(md, md.packages[i].id, md.packages[t].id);
  }

  /** What the two scripts see in an entry of an internal package. */
  lemma EntryMeans(md: Metadata, names: seq<string>, closure: set<string>, i: nat, k: nat)
    requires Consistent(md) && IsClosure(md, RootIds(md.packages, names), closure)
    requires Member(md, names, i) && k < |md.packages[i].dependencies|
    ensures var p, internal := md.packages[i], Internal(md, closure);
            && (NeedsVersion(md, internal, p.id, p.dependencies[k]) <==> exists t :: WrongEntry(md, names, i, k, t))
            && (LeavesClosure(md, internal, p.id, p.dependencies[k]) <==> exists t :: LeavingEntry(md, names, i, k, t))
  {
    hide Consistent, IsClosure, RootIds, Internal, Shipped, ActiveTarget, StandsFor;
    var p, internal := md.packages[i], Internal(md, closure);
    var d := p.dependencies[k];
    forall t: nat | StandsFor(md, i, k, t)
      ensures t < |md.packages| && ActiveTarget(md, p.id, d) == Some(md.packages[t])
      ensures md.packages[t].id in internal <==> Member(md, names, t)
    {
      TargetOfEntry(md, i, k, t);
      InternalMeans(md, names, closure, t);
    }
    if ActiveTarget(md, p.id, d).Some? {
      var t := EntryOfTarget(md, i, k);
      if NeedsVersion(md, internal, p.id, d) {
        assert WrongEntry(md, names, i, k, t);
      }
      if LeavesClosure(md, internal, p.id, d) {
        assert LeavingEntry(md, names, i, k, t);
      }
    }
  }

  // ----- Plans

  /** The closure is what is shipped, and the internal packages are those of its workspace members below the root. */
  lemma PlannedPackages(md: Metadata, names: seq<string>, plan: Plan)
    requires Consistent(md) && IsPlan(md, names, plan)
    ensures forall id :: id in plan.closure <==> Shipped(md, names, id)
    ensures forall i: nat :: i < |md.packages| ==> (md.packages[i].id in plan.internal <==> Member(md, names, i))
  {
    hide Consistent, RootIds, Internal, Reachable, Shipped, Member, Gathers, Sorted, SomeLeavesClosure, SomeOutsideRoot,
        MissingRoot;
    forall id
      ensures id in plan.closure <==> Shipped(md, names, id)
    {
      ReachableMeans(md, names, id);
    }
    forall i: nat | i < |md.packages|
      ensures md.packages[i].id in plan.internal <==> Member(md, names, i)
    {
      InternalMeans(md, names, plan.closure, i);
    }
  }

  /** Entry `k` of the internal package `i` calls for this version of the internal package `t`. */
  ghost predicate CallsForVersion(md: Metadata, names: seq<string>, i: nat, k: nat, t: nat, op: Operation) {
    && WrongEntry(md, names, i, k, t)
    && op == SetPathVersion(md.packages[i].manifest.value, md.packages[i].name, md.packages[i].dependencies[k].name,
                            "=" + md.packages[t].version)
  }

  /** Package `i` calls for this flag. */
  ghost predicate CallsForFlag(md: Metadata, names: seq<string>, i: nat, op: Operation) {
    && i < |md.packages| && op.SetPublish? && md.packages[i].manifest == Some(op.manifest)
    && md.packages[i].name == op.package
    && if op.publish then Member(md, names, i) && md.packages[i].publish.Some?
       else OtherMember(md, names, i) && md.packages[i].publish.None?
  }

  lemma PlannedEntry(md: Metadata, names: seq<string>, plan: Plan, op: Operation) returns (i: nat, k: nat, t: nat)
    requires Consistent(md) && IsPlan(md, names, plan) && op.SetPathVersion? && op in plan.operations
    ensures CallsForVersion(md, names, i, k, t, op)
  {
    hide Consistent, RootIds, Internal, Reachable, Shipped, Gathers, Sorted, SomeLeavesClosure, SomeOutsideRoot,
        MissingRoot, ActiveTarget, StandsFor, IsClosure, Targets;
    PlannedPackages(md, names, plan);
    PlanHoldsExactly(md, names, plan, op);
    var p :| InternalOp(md, plan.internal, p, op) || ExternalOp(md, plan.internal, p, op);
    var d :| d in p.dependencies && IsDependencyOp(md, plan.internal, p, d, op);
    i :| i < |md.packages| && md.packages[i] == p;
    k :| k < |p.dependencies| && p.dependencies[k] == d;
    EntryMeans(md, names, plan.closure, i, k);
    t :| WrongEntry(md, names, i, k, t);
    TargetOfEntry(md, i, k, t);
  }

  lemma EntryIsPlanned(md: Metadata, names: seq<string>, plan: Plan, op: Operation, i: nat, k: nat, t: nat)
    requires Consistent(md) && IsPlan(md, names, plan) && CallsForVersion(md, names, i, k, t, op)
    ensures op in plan.operations
  {
    hide Consistent, RootIds, Internal, Reachable, Shipped, Gathers, Sorted, SomeLeavesClosure, SomeOutsideRoot,
        MissingRoot, ActiveTarget, StandsFor, IsClosure, Targets;
    PlannedPackages(md, names, plan);
    PlanHoldsExactly(md, names, plan, op);
    TargetOfEntry(md, i, k, t);
    EntryMeans(md, names, plan.closure, i, k);
    var p := md.packages[i];
    assert IsDependencyOp(md, plan.internal, p, p.dependencies[k], op);
    assert InternalOp(md, plan.internal, p, op);
  }

  /**
   The plan sets a version exactly where an entry of an internal package that is not for tests alone stands for an
   internal package, by its path and by a shipped edge, and does not require exactly its version.
   */
  lemma PlannedVersions(md: Metadata, names: seq<string>, plan: Plan, op: Operation)
    requires Consistent(md) && IsPlan(md, names, plan) && op.SetPathVersion?
    ensures op in plan.operations <==> exists i: nat, k: nat, t: nat :: CallsForVersion(md, names, i, k, t, op)
  {
    hide Consistent, IsPlan, CallsForVersion;
    if op in plan.operations {
      var i, k, t := PlannedEntry(md, names, plan, op);
    }
    if i: nat, k: nat, t: nat :| CallsForVersion(md, names, i, k, t, op) {
      EntryIsPlanned(md, names, plan, op, i, k, t);
    }
  }

  /** The plan sets the flags of the internal packages that may not and of the other members that may be published. */
  lemma PlannedFlags(md: Metadata, names: seq<string>, plan: Plan, op: Operation)
    requires Consistent(md) && IsPlan(md, names, plan) && op.SetPublish?
    ensures op in plan.operations <==> exists i: nat :: CallsForFlag(md, names, i, op)
  {
    hide Consistent, RootIds, Internal, Reachable, Shipped, Gathers, Sorted, SomeLeavesClosure, SomeOutsideRoot,
        MissingRoot, NeedsVersion, IsClosure, Targets;
    PlannedPackages(md, names, plan);
    PlanHoldsExactly(md, names, plan, op);
    if op in plan.operations {
      var p :| InternalOp(md, plan.internal, p, op) || ExternalOp(md, plan.internal, p, op);
      var i: nat :| i < |md.packages| && md.packages[i] == p;
      assert CallsForFlag(md, names, i, op);
    }
    if i: nat :| CallsForFlag(md, names, i, op) {
      var p := md.packages[i];
      assert InternalOp(md, plan.internal, p, op) || ExternalOp(md, plan.internal, p, op);
    }
  }

  // ----- Reports

  /** The finding about entry `k` of the internal package `i`, which stands for package `t`. */
  ghost predicate CallsForFinding(md: Metadata, names: seq<string>, i: nat, k: nat, t: nat, f: Finding) {
    || (&& WrongEntry(md, names, i, k, t)
        && var p, d := md.packages[i], md.packages[i].dependencies[k];
           f == WrongVersion(p.id, d.name, md.packages[t].name, d.req, "=" + md.packages[t].version))
    || (&& LeavingEntry(md, names, i, k, t)
        && f == LeavingDependency(md.packages[i].id, md.packages[i].dependencies[k].name))
  }

  lemma ReportedPackages(md: Metadata, names: seq<string>, r: Report)
    requires Consistent(md) && IsReport(md, names, r)
    ensures forall id :: id in r.closure <==> Shipped(md, names, id)
    ensures forall i: nat :: i < |md.packages| ==> (md.packages[i].id in r.internal <==> Member(md, names, i))
  {
    hide Consistent, RootIds, Internal, Reachable, Shipped, Member, Covers, InOrder, MissingRoot;
    forall id
      ensures id in r.closure <==> Shipped(md, names, id)
    {
      ReachableMeans(md, names, id);
    }
    forall i: nat | i < |md.packages|
      ensures md.packages[i].id in r.internal <==> Member(md, names, i)
    {
      InternalMeans(md, names, r.closure, i);
    }
  }

  lemma ReportedEntry(md: Metadata, names: seq<string>, r: Report, f: Finding) returns (i: nat, k: nat, t: nat)
    requires Consistent(md) && IsReport(md, names, r) && (f.WrongVersion? || f.LeavingDependency?) && f in r.findings
    ensures CallsForFinding(md, names, i, k, t, f)
  {
    hide Consistent, RootIds, Internal, Reachable, Shipped, Covers, InOrder, MissingRoot, ActiveTarget, StandsFor,
        IsClosure, Targets;
    ReportedPackages(md, names, r);
    ReportHoldsExactly(md, names, r, f);
    var p :| InternalFinding(md, r.internal, p, f) || OutsideFinding(md, r.internal, p, f);
    var d :| d in p.dependencies && DependencyFinding(md, r.internal, p, d, f);
    i :| i < |md.packages| && md.packages[i] == p;
    k :| k < |p.dependencies| && p.dependencies[k] == d;
    EntryMeans(md, names, r.closure, i, k);
    if f.WrongVersion? {
      t :| WrongEntry(md, names, i, k, t);
    } else {
      t :| LeavingEntry(md, names, i, k, t);
    }
    TargetOfEntry(md, i, k, t);
  }

  lemma EntryIsReported(md: Metadata, names: seq<string>, r: Report, f: Finding, i: nat, k: nat, t: nat)
    requires Consistent(md) && IsReport(md, names, r) && CallsForFinding(md, names, i, k, t, f)
    ensures f in r.findings
  {
    hide Consistent, RootIds, Internal, Reachable, Shipped, Covers, InOrder, MissingRoot, ActiveTarget, StandsFor,
        IsClosure, Targets;
    ReportedPackages(md, names, r);
    ReportHoldsExactly(md, names, r, f);
    TargetOfEntry(md, i, k, t);
    EntryMeans(md, names, r.closure, i, k);
    var p := md.packages[i];
    assert DependencyFinding(md, r.internal, p, p.dependencies[k], f);
    assert InternalFinding(md, r.internal, p, f);
  }

  /** The auditor reports exactly the entries that stand for an internal package at another version or for another. */
  lemma ReportedEntries(md: Metadata, names: seq<string>, r: Report, f: Finding)
    requires Consistent(md) && IsReport(md, names, r) && (f.WrongVersion? || f.LeavingDependency?)
    ensures f in r.findings <==> exists i: nat, k: nat, t: nat :: CallsForFinding(md, names, i, k, t, f)
  {
    hide Consistent, IsReport, CallsForFinding;
    if f in r.findings {
      var i, k, t := ReportedEntry(md, names, r, f);
    }
    if i: nat, k: nat, t: nat :| CallsForFinding(md, names, i, k, t, f) {
      EntryIsReported(md, names, r, f, i, k, t);
    }
  }

  /** The auditor reports exactly the internal packages that may not and the other members that may be published. */
  lemma ReportedFlags(md: Metadata, names: seq<string>, r: Report, f: Finding)
    requires Consistent(md) && IsReport(md, names, r) && (f.ReachableUnpublishable? || f.OutsidePublishable?)
    ensures f in r.findings
       <==> exists i: nat :: i < |md.packages| && md.packages[i].id == f.package
              && if f.ReachableUnpublishable? then Member(md, names, i) && md.packages[i].publish.Some?
                 else OtherMember(md, names, i) && md.packages[i].publish.None?
  {
    hide Consistent, RootIds, Internal, Reachable, Shipped, Covers, InOrder, MissingRoot, ActiveTarget, IsClosure,
        Targets;
    ReportedPackages(md, names, r);
    ReportHoldsExactly(md, names, r, f);
    if f in r.findings {
      var p :| InternalFinding(md, r.internal, p, f) || OutsideFinding(md, r.internal, p, f);
      FindingPackage(md, r.internal, p, f);
      var i: nat :| i < |md.packages| && md.packages[i] == p;
    }
    forall i: nat | i < |md.packages| && md.packages[i].id == f.package
      ensures md.packages[i] in md.packages
      ensures f.ReachableUnpublishable? && Member(md, names, i) && md.packages[i].publish.Some? ==>
                InternalFinding(md, r.internal, md.packages[i], f)
      ensures f.OutsidePublishable? && OtherMember(md, names, i) && md.packages[i].publish.None? ==>
                OutsideFinding(md, r.internal, md.packages[i], f)
    {
    }
  }

  // ----- How often

  lemma CountHead<T>(head: seq<T>, rest: seq<T>, x: T)
    requires |head| <= 1
    ensures multiset(head + rest)[x] == (if x in head then 1 else 0) + multiset(rest)[x]
  {
    assert head == [] || head == [head[0]];
  }

  lemma {:induction false} CountWithKey(ops: seq<Operation>, op: Operation)
    ensures multiset(WithKey(ops, op))[op] == multiset(ops)[op]
  {
    hide SameKey;
    if ops != [] {
      CountWithKey(ops[1..], op);
      KeyOfItself(op);
      CountHead([ops[0]], ops[1..], op);
      CountHead(if SameKey(ops[0], op) then [ops[0]] else [], WithKey(ops[1..], op), op);
      assert ops == [ops[0]] + ops[1..];
    }
  }

  lemma {:induction false} CountAbout(findings: seq<Finding>, f: Finding)
    ensures multiset(About(findings, f.package))[f] == multiset(findings)[f]
  {
    if findings != [] {
      CountAbout(findings[1..], f);
      CountHead([findings[0]], findings[1..], f);
      CountHead(if findings[0].package == f.package then [findings[0]] else [], About(findings[1..], f.package), f);
      assert findings == [findings[0]] + findings[1..];
    }
  }

  /** The numbers from `j` up to `n` with a property. */
  ghost function Where(n: nat, j: nat, holds: nat -> bool): set<nat> {
    set k: nat | j <= k < n && holds(k)
  }

  lemma WhereIs(n: nat, j: nat, holds: nat -> bool)
    requires j < n
    ensures Where(n, j, holds) == Where(n, j + 1, holds) + if holds(j) then {j} else {}
  {
  }

  lemma WhereStep(n: nat, j: nat, holds: nat -> bool)
    requires j <= n
    ensures |Where(n, j, holds)| == if j == n then 0 else (if holds(j) then 1 else 0) + |Where(n, j + 1, holds)|
  {
    if j == n {
      assert Where(n, j, holds) == {};
    } else {
      WhereIs(n, j, holds);
      assert j !in Where(n, j + 1, holds);
      hide Where;
    }
  }

  lemma EntryOperationsHead(md: Metadata, internal: set<string>, p: Package, j: nat, op: Operation)
      returns (head: seq<Operation>)
    requires p.manifest.Some? && j < |p.dependencies|
    ensures |head| <= 1 && (op in head <==> IsDependencyOp(md, internal, p, p.dependencies[j], op))
    ensures EntryOperations(md, internal, p, p.dependencies[j..])
         == head + EntryOperations(md, internal, p, p.dependencies[j + 1..])
  {
    hide NeedsVersion, VersionOperation;
    var d := p.dependencies[j];
    head := if NeedsVersion(md, internal, p.id, d) then [VersionOperation(md, internal, p, d)] else [];
    assert p.dependencies[j..][1..] == p.dependencies[j + 1..];
  }

  lemma {:induction false} CountEntryOperations(md: Metadata, internal: set<string>, p: Package, j: nat, op: Operation,
      calls: nat -> bool)
    requires p.manifest.Some? && j <= |p.dependencies|
    requires forall k :: 0 <= k < |p.dependencies| ==>
               (calls(k) <==> IsDependencyOp(md, internal, p, p.dependencies[k], op))
    ensures multiset(EntryOperations(md, internal, p, p.dependencies[j..]))[op] == |Where(|p.dependencies|, j, calls)|
    decreases |p.dependencies| - j
  {
    hide IsDependencyOp, Where;
    WhereStep(|p.dependencies|, j, calls);
    if j < |p.dependencies| {
      hide EntryOperations;
      CountEntryOperations(md, internal, p, j + 1, op, calls);
      var head := EntryOperationsHead(md, internal, p, j, op);
      CountHead(head, EntryOperations(md, internal, p, p.dependencies[j + 1..]), op);
    }
  }

  lemma {:induction false} CountEntryFindings(md: Metadata, internal: set<string>, p: Package, j: nat, f: Finding,
      calls: nat -> bool)
    requires j <= |p.dependencies|
    requires forall k :: 0 <= k < |p.dependencies| ==>
               (calls(k) <==> DependencyFinding(md, internal, p, p.dependencies[k], f))
    ensures multiset(EntryFindings(md, internal, p, p.dependencies[j..]))[f] == |Where(|p.dependencies|, j, calls)|
    decreases |p.dependencies| - j
  {
    hide DependencyFinding, Where, EntryFinding;
    WhereStep(|p.dependencies|, j, calls);
    if j < |p.dependencies| {
      var head, later := EntryFinding(md, internal, p, p.dependencies[j]), p.dependencies[j + 1..];
      CountEntryFindings(md, internal, p, j + 1, f, calls);
      assert p.dependencies[j..][1..] == later;
      EntryFindingMeans(md, internal, p, p.dependencies[j]);
      CountHead(head, EntryFindings(md, internal, p, later), f);
    }
  }

  lemma CountOperations(md: Metadata, internal: set<string>, p: Package, op: Operation, calls: nat -> bool)
    requires p.manifest == Some(op.manifest)
    requires forall k :: 0 <= k < |p.dependencies| ==>
               (calls(k) <==> p.id in internal && IsDependencyOp(md, internal, p, p.dependencies[k], op))
    ensures var count := multiset(OperationsFor(md, internal, p))[op];
            && (op.SetPublish? ==> count <= 1)
            && (op.SetPathVersion? ==> count == |Where(|p.dependencies|, 0, calls)|)
  {
    hide EntryOperations, IsDependencyOp;
    if p.id in internal {
      CountEntryOperations(md, internal, p, 0, op, calls);
      assert p.dependencies[0..] == p.dependencies;
      EntryOperationsMeans(md, internal, p, p.dependencies);
      OnlyVersions(md, internal, p, op);
    } else {
      assert Where(|p.dependencies|, 0, calls) == {};
    }
  }

  lemma OnlyVersions(md: Metadata, internal: set<string>, p: Package, op: Operation)
    requires p.manifest.Some?
    ensures op.SetPublish? ==> forall d :: !IsDependencyOp(md, internal, p, d, op)
  {
    hide NeedsVersion, ActiveTarget;
  }

  lemma CountFindings(md: Metadata, internal: set<string>, p: Package, f: Finding, calls: nat -> bool)
    requires f.package == p.id
    requires forall k :: 0 <= k < |p.dependencies| ==>
               (calls(k) <==> p.id in internal && DependencyFinding(md, internal, p, p.dependencies[k], f))
    ensures var count := multiset(FindingsFor(md, internal, p))[f];
            && (f.ReachableUnpublishable? || f.OutsidePublishable? ==> count <= 1)
            && (f.WrongVersion? || f.LeavingDependency? ==> count == |Where(|p.dependencies|, 0, calls)|)
  {
    hide EntryFindings, DependencyFinding;
    if p.id in internal {
      CountEntryFindings(md, internal, p, 0, f, calls);
      assert p.dependencies[0..] == p.dependencies;
      EntryFindingsMeans(md, internal, p, p.dependencies);
      var first := if PackagePublishable(p) then [] else [ReachableUnpublishable(p.id)];
      CountHead(first, EntryFindings(md, internal, p, p.dependencies), f);
      forall d | DependencyFinding(md, internal, p, d, f)
        ensures f.WrongVersion? || f.LeavingDependency?
      {
        FindingNames(md, internal, p, d, f);
      }
    } else {
      assert Where(|p.dependencies|, 0, calls) == {};
    }
  }

  /** Entry `k` of package `i` calls for an operation. */
  ghost predicate Calls(md: Metadata, names: seq<string>, i: nat, k: nat, op: Operation) {
    exists t: nat :: CallsForVersion(md, names, i, k, t, op)
  }

  /** There is a finding about entry `k` of package `i`. */
  ghost predicate Faulty(md: Metadata, names: seq<string>, i: nat, k: nat, f: Finding) {
    exists t: nat :: CallsForFinding(md, names, i, k, t, f)
  }

  lemma CallersAre(md: Metadata, names: seq<string>, closure: set<string>, i: nat, k: nat, op: Operation)
    requires Consistent(md) && IsClosure(md, RootIds(md.packages, names), closure)
    requires Member(md, names, i) && k < |md.packages[i].dependencies|
    ensures IsDependencyOp(md, Internal(md, closure), md.packages[i], md.packages[i].dependencies[k], op)
       <==> Calls(md, names, i, k, op)
  {
    hide Consistent, IsClosure, RootIds, Internal, Shipped, ActiveTarget, StandsFor;
    EntryMeans(md, names, closure, i, k);
    forall t: nat | StandsFor(md, i, k, t)
      ensures t < |md.packages|
      ensures ActiveTarget(md, md.packages[i].id, md.packages[i].dependencies[k]) == Some(md.packages[t])
    {
      TargetOfEntry(md, i, k, t);
    }
    if NeedsVersion(md, Internal(md, closure), md.packages[i].id, md.packages[i].dependencies[k]) {
      var t: nat :| WrongEntry(md, names, i, k, t);
      assert IsDependencyOp(md, Internal(md, closure), md.packages[i], md.packages[i].dependencies[k], op) ==>
        CallsForVersion(md, names, i, k, t, op);
    }
  }

  lemma FaultsAre(md: Metadata, names: seq<string>, closure: set<string>, i: nat, k: nat, f: Finding)
    requires Consistent(md) && IsClosure(md, RootIds(md.packages, names), closure)
    requires Member(md, names, i) && k < |md.packages[i].dependencies|
    ensures DependencyFinding(md, Internal(md, closure), md.packages[i], md.packages[i].dependencies[k], f)
       <==> Faulty(md, names, i, k, f)
  {
    hide Consistent, IsClosure, RootIds, Internal, Shipped, ActiveTarget, StandsFor;
    var internal, d := Internal(md, closure), md.packages[i].dependencies[k];
    EntryMeans(md, names, closure, i, k);
    forall t: nat | StandsFor(md, i, k, t)
      ensures t < |md.packages| && ActiveTarget(md, md.packages[i].id, d) == Some(md.packages[t])
    {
      TargetOfEntry(md, i, k, t);
    }
    if DependencyFinding(md, internal, md.packages[i], d, f) {
      if NeedsVersion(md, internal, md.packages[i].id, d) {
        var t: nat :| WrongEntry(md, names, i, k, t);
        assert CallsForFinding(md, names, i, k, t, f);
      } else {
        var t: nat :| LeavingEntry(md, names, i, k, t);
        assert CallsForFinding(md, names, i, k, t, f);
      }
    }
  }

  /** A plan holds an operation as often as entries of the package call for it, and no flag twice. */
  lemma PlannedOften(md: Metadata, names: seq<string>, plan: Plan, op: Operation, i: nat)
    requires Consistent(md) && IsPlan(md, names, plan)
    requires i < |md.packages| && md.packages[i].manifest == Some(op.manifest)
    ensures op.SetPublish? ==> multiset(plan.operations)[op] <= 1
    ensures op.SetPathVersion? ==>
              var n := |md.packages[i].dependencies|;
              multiset(plan.operations)[op] == |set k: nat | k < n && Calls(md, names, i, k, op)|
  {
    hide RootIds, Internal, IsClosure, Shipped, Sorted, SomeLeavesClosure, SomeOutsideRoot, MissingRoot, Find,
        OperationsFor, WithKey, SameKey, IsDependencyOp, StandsFor;
    var p, ops, internal := md.packages[i], plan.operations, plan.internal;
    var calls: nat -> bool := (k: nat) => Calls(md, names, i, k, op);
    PlannedPackages(md, names, plan);
    CountWithKey(ops, op);
    assert Where(|p.dependencies|, 0, calls) == set k: nat | k < |p.dependencies| && Calls(md, names, i, k, op);
    if p.id in md.workspace {
      assert WithKey(ops, op) == WithKey(OperationsFor(md, internal, p), op);
      CountWithKey(OperationsFor(md, internal, p), op);
      forall k | 0 <= k < |p.dependencies|
        ensures calls(k) <==> p.id in internal && IsDependencyOp(md, internal, p, p.dependencies[k], op)
      {
        if p.id in internal {
          CallersAre(md, names, plan.closure, i, k, op);
        }
      }
      CountOperations(md, internal, p, op, calls);
    } else {
      assert op !in ops;
      assert Where(|p.dependencies|, 0, calls) == {};
    }
  }

  /** A report holds a finding once for each entry it is about, and no finding about a flag twice. */
  lemma ReportedOften(md: Metadata, names: seq<string>, r: Report, f: Finding, i: nat)
    requires Consistent(md) && IsReport(md, names, r)
    requires i < |md.packages| && md.packages[i].id == f.package
    ensures f.ReachableUnpublishable? || f.OutsidePublishable? ==> multiset(r.findings)[f] <= 1
    ensures f.WrongVersion? || f.LeavingDependency? ==>
              var n := |md.packages[i].dependencies|;
              multiset(r.findings)[f] == |set k: nat | k < n && Faulty(md, names, i, k, f)|
  {
    hide RootIds, Internal, IsClosure, Shipped, InOrder, MissingRoot, Find, FindingsFor, About, DependencyFinding,
        StandsFor;
    var p, internal := md.packages[i], r.internal;
    var calls: nat -> bool := (k: nat) => Faulty(md, names, i, k, f);
    ReportedPackages(md, names, r);
    CountAbout(r.findings, f);
    assert Where(|p.dependencies|, 0, calls) == set k: nat | k < |p.dependencies| && Faulty(md, names, i, k, f);
    if p.id in md.workspace {
      forall k | 0 <= k < |p.dependencies|
        ensures calls(k) <==> p.id in internal && DependencyFinding(md, internal, p, p.dependencies[k], f)
      {
        if p.id in internal {
          FaultsAre(md, names, r.closure, i, k, f);
        }
      }
      CountFindings(md, internal, p, f, calls);
    } else {
      assert f !in r.findings;
      assert Where(|p.dependencies|, 0, calls) == {};
    }
  }

  // ----- Refusals

  ghost predicate EveryNameFound(md: Metadata, names: seq<string>) {
    forall n :: n in names ==> exists i :: 0 <= i < |md.packages| && md.packages[i].name == n
  }

  /** Every shipped package has its edges listed. */
  ghost predicate EveryNodeFound(md: Metadata, names: seq<string>) {
    forall id :: Shipped(md, names, id) ==> id in md.nodes
  }

  ghost predicate SomeEntryLeaves(md: Metadata, names: seq<string>) {
    exists i: nat, k: nat, t: nat :: LeavingEntry(md, names, i, k, t)
  }

  lemma NamesMean(md: Metadata, names: seq<string>)
    ensures MissingRoot(md.packages, names) <==> !EveryNameFound(md, names)
  {
    forall n
      ensures HasName(md.packages, n) <==> exists i :: 0 <= i < |md.packages| && md.packages[i].name == n
    {
    }
  }

  lemma ShippedClosureSet(md: Metadata, names: seq<string>, closure: set<string>)
    requires EveryNodeFound(md, names) && EveryNameFound(md, names)
    requires closure == set id | id in md.nodes && Shipped(md, names, id)
    ensures HasClosure(md, names, closure)
  {
    hide Reachable, Shipped, RootIds, EveryNameFound;
    NamesMean(md, names);
    forall id
      ensures id in closure <==> Reachable(md, RootIds(md.packages, names), id)
    {
      ReachableMeans(md, names, id);
    }
  }

  lemma ClosureMeans(md: Metadata, names: seq<string>, closure: set<string>)
    requires HasClosure(md, names, closure)
    ensures EveryNameFound(md, names) && EveryNodeFound(md, names)
  {
    hide Reachable, Shipped, RootIds, EveryNameFound;
    NamesMean(md, names);
    forall id
      ensures Reachable(md, RootIds(md.packages, names), id) <==> Shipped(md, names, id)
    {
      ReachableMeans(md, names, id);
    }
  }

  lemma LeavesMeans(md: Metadata, names: seq<string>, closure: set<string>)
    requires Consistent(md) && HasClosure(md, names, closure)
    ensures SomeLeavesClosure(md, Internal(md, closure)) <==> SomeEntryLeaves(md, names)
  {
    hide Consistent, RootIds, Internal, Reachable, Shipped, IsClosure, LeavesClosure, StandsFor, NeedsVersion;
    var internal := Internal(md, closure);
    if SomeLeavesClosure(md, internal) {
      var p, d :| p in md.packages && p.id in internal && d in p.dependencies && LeavesClosure(md, internal, p.id, d);
      var i: nat :| i < |md.packages| && md.packages[i] == p;
      var k: nat :| k < |p.dependencies| && p.dependencies[k] == d;
      InternalMeans(md, names, closure, i);
      EntryMeans(md, names, closure, i, k);
    }
    if i: nat, k: nat, t: nat :| LeavingEntry(md, names, i, k, t) {
      TargetOfEntry(md, i, k, t);
      InternalMeans(md, names, closure, i);
      EntryMeans(md, names, closure, i, k);
      assert md.packages[i] in md.packages && md.packages[i].dependencies[k] in md.packages[i].dependencies;
    }
  }

  /** Some other workspace member may be published and has no manifest below the root. */
  ghost predicate SomeOutOfReach(md: Metadata, names: seq<string>) {
    exists i: nat :: OtherMember(md, names, i) && md.packages[i].publish.None? && md.packages[i].manifest.None?
  }

  lemma OutsideMeans(md: Metadata, names: seq<string>, closure: set<string>)
    requires Consistent(md) && HasClosure(md, names, closure)
    ensures SomeOutsideRoot(md, Internal(md, closure)) <==> SomeOutOfReach(md, names)
  {
    hide Consistent, RootIds, Internal, Reachable, Shipped, IsClosure;
    var internal := Internal(md, closure);
    if SomeOutsideRoot(md, internal) {
      var p :| p in md.packages && p.id in md.workspace && p.id !in internal && p.publish.None? && p.manifest.None?;
      var i: nat :| i < |md.packages| && md.packages[i] == p;
      InternalMeans(md, names, closure, i);
    }
    if i: nat :| OtherMember(md, names, i) && md.packages[i].publish.None? && md.packages[i].manifest.None? {
      InternalMeans(md, names, closure, i);
    }
  }

  /**
   The planner refuses for the first of: a name without a package, a shipped package without edges, an entry that
   leaves the internal packages, a publishable member with no manifest below the root.
   */
  lemma RefusalsMean(md: Metadata, names: seq<string>, e: Error)
    requires Consistent(md)
    ensures PlanFails(md, names, e)
       <==> if !EveryNameFound(md, names) then e == MissingRoots
            else if !EveryNodeFound(md, names) then e == NoNode
            else if SomeEntryLeaves(md, names) then e == OutsideClosure
            else SomeOutOfReach(md, names) && e == OutsideRoot
  {
    hide Consistent, RootIds, Internal, Reachable, Shipped, IsClosure, SomeLeavesClosure, SomeOutsideRoot, MissingRoot,
        EveryNameFound, HasClosure, SomeEntryLeaves, SomeOutOfReach;
    NamesMean(md, names);
    forall id
      ensures Reachable(md, RootIds(md.packages, names), id) <==> Shipped(md, names, id)
    {
      ReachableMeans(md, names, id);
    }
    forall closure | HasClosure(md, names, closure)
      ensures EveryNameFound(md, names) && EveryNodeFound(md, names)
      ensures SomeLeavesClosure(md, Internal(md, closure)) <==> SomeEntryLeaves(md, names)
      ensures SomeOutsideRoot(md, Internal(md, closure)) <==> SomeOutOfReach(md, names)
    {
      ClosureMeans(md, names, closure);
      LeavesMeans(md, names, closure);
      OutsideMeans(md, names, closure);
    }
    if EveryNameFound(md, names) && EveryNodeFound(md, names) {
      ShippedClosureSet(md, names, set id | id in md.nodes && Shipped(md, names, id));
    }
  }

  // ----- Orders

  /** Comparison of strings: the first `n` characters are the same, and then `a` ends or has the smaller character. */
  ghost predicate NotBehind(a: string, b: string) {
    exists n :: 0 <= n <= |a| && n <= |b| && a[..n] == b[..n] && (n == |a| || (n < |b| && a[n] < b[n]))
  }

  lemma NotBehindTail(a: string, b: string)
    requires a != [] && b != [] && a[0] == b[0]
    ensures NotBehind(a, b) <==> NotBehind(a[1..], b[1..])
  {
    var x, y := a[1..], b[1..];
    if n :| 0 <= n <= |x| && n <= |y| && x[..n] == y[..n] && (n == |x| || (n < |y| && x[n] < y[n])) {
      assert a[..n + 1] == [a[0]] + x[..n] && b[..n + 1] == [b[0]] + y[..n];
    }
    if n :| 0 <= n <= |a| && n <= |b| && a[..n] == b[..n] && (n == |a| || (n < |b| && a[n] < b[n])) {
      assert n > 0;
      assert x[..n - 1] == a[..n][1..] && y[..n - 1] == b[..n][1..];
    }
  }

  lemma {:induction false} StringLeqMeans(a: string, b: string)
    ensures StringLeq(a, b) <==> NotBehind(a, b)
    decreases |a|
  {
    if a == [] {
      assert a[..0] == b[..0];
    } else if b != [] && a[0] == b[0] {
      var x, y := a[1..], b[1..];
      StringLeqMeans(x, y);
      NotBehindTail(a, b);
    } else if b != [] {
      assert a[..0] == b[..0];
      forall n | 0 < n <= |a| && n <= |b|
        ensures a[..n] != b[..n]
      {
        assert a[..n][0] != b[..n][0];
      }
    }
  }

  /** A plan is in the order of the manifests; for one manifest come the versions, by name, and then the flag. */
  lemma PlannedOrder(md: Metadata, names: seq<string>, plan: Plan, i: nat, j: nat)
    requires IsPlan(md, names, plan) && i < j < |plan.operations|
    ensures var a, b := plan.operations[i], plan.operations[j];
            && NotBehind(a.manifest, b.manifest)
            && (a.manifest == b.manifest ==> a.SetPathVersion? || b.SetPublish?)
            && (a.manifest == b.manifest && a.SetPathVersion? && b.SetPathVersion? ==>
                  NotBehind(a.dependency, b.dependency))
  {
    hide Gathers, HasClosure, MissingRoot, IsClosure, Internal, SomeLeavesClosure, SomeOutsideRoot, NotBehind;
    var a, b := plan.operations[i], plan.operations[j];
    assert KeyLeq(a, b);
    StringLeqMeans(a.manifest, b.manifest);
    StringLeqMeans(DependencyName(a), DependencyName(b));
    KindsInOrder();
    StringLeqTotal(a.manifest, a.manifest);
  }

  lemma KindsInOrder()
    ensures !StringLeq("set-publish", "set-path-version")
  {
    var a, b := "set-publish", "set-path-version";
    hide StringLeq;
    assert a[5] == 'u' && b[5] == 'a';
    assert a[..5] == b[..5];
    StringLeqMeans(b, a);
    StringLeqTotal(a, b);
  }

  /** A report is about the internal packages first, and each part is in the order of the names. */
  lemma ReportedOrder(md: Metadata, names: seq<string>, r: Report, i: nat, j: nat, p: nat, q: nat)
    requires Consistent(md) && IsReport(md, names, r) && i < j < |r.findings|
    requires p < |md.packages| && md.packages[p].id == r.findings[i].package
    requires q < |md.packages| && md.packages[q].id == r.findings[j].package
    ensures Member(md, names, q) ==> Member(md, names, p)
    ensures (Member(md, names, p) <==> Member(md, names, q)) ==> NotBehind(md.packages[p].name, md.packages[q].name)
  {
    hide Consistent, HasClosure, Internal, Covers, NotBehind, Shipped, Member, Find, StringLeq;
    ReportedPackages(md, names, r);
    FoundIs(md, md.packages[p]);
    FoundIs(md, md.packages[q]);
    assert NotAfter(md, r.internal, r.findings[i].package, r.findings[j].package);
    StringLeqMeans(md.packages[p].name, md.packages[q].name);
  }
}
