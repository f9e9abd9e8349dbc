/**
 The planner and the auditor agree: sorting the answers to the auditor's findings is the plan. The workspace that
 applying a plan leaves behind passes the audit and needs no further plan exactly if each entry that needs a version
 is given it by one of the plan's edits.
 */
module PublishAgreement {
  import opened Wrappers
  import opened PublishGraph
  import opened PublishPlan
  import opened PublishAudit
  import opened PublishApply

  // ----- Which edits land

  predicate Needs(md: Metadata, internal: set<string>, p: Package, k: int) {
    0 <= k < |p.dependencies| && NeedsVersion(md, internal, p.id, p.dependencies[k])
  }

  /** The version entry `k` has to have. */
  function Wanted(md: Metadata, internal: set<string>, p: Package, k: int): string
    requires Needs(md, internal, p, k)
  {
    ExactVersion(ActiveTarget(md, p.id, p.dependencies[k]).value)
  }

  /** The edit made for entry `i` is made in entry `k`, with the version that `k` has to have. */
  predicate Gives(md: Metadata, internal: set<string>, p: Package, i: int, k: nat)
    requires Needs(md, internal, p, k)
  {
    && Needs(md, internal, p, i)
    && EditedEntry(p, p.dependencies[i].name) == Some(k)
    && Wanted(md, internal, p, i) == Wanted(md, internal, p, k)
  }

  /** Each entry that needs a version is given it by an edit of the plan. */
  predicate EveryEditLands(md: Metadata, internal: set<string>) {
    forall p, k: nat :: p in md.packages && p.id in internal && k < |p.dependencies| && Needs(md, internal, p, k) ==>
      exists i :: 0 <= i < |p.dependencies| && Gives(md, internal, p, i, k)
  }

  /** Each edit of the plan finds a line to change. */
  predicate EveryLineFound(md: Metadata, internal: set<string>) {
    forall p, k: nat :: p in md.packages && p.id in internal && k < |p.dependencies| && Needs(md, internal, p, k) ==>
      FirstLine(p.lines, p.dependencies[k].name).Some?
  }

  /** Each entry that needs a version stands in the first inline table under its name. */
  predicate EveryEntryFirst(md: Metadata, internal: set<string>) {
    forall p, k: nat :: p in md.packages && p.id in internal && k < |p.dependencies| && Needs(md, internal, p, k) ==>
      EditedEntry(p, p.dependencies[k].name) == Some(k)
  }

  /** Every line that sets a requirement stands under the name of the package the entry is for. */
  predicate NoRenames(p: Package) {
    forall l :: l in p.lines && l.entry.Some? && l.entry.value < |p.dependencies| ==>
      p.dependencies[l.entry.value].name == l.key
  }

  /**
   Where no dependency is renamed, every edit lands exactly if each entry that needs a version stands in the first
   inline table under its name.
   */
  lemma LandsWithoutRenames(md: Metadata, internal: set<string>)
    requires forall p :: p in md.packages ==> NoRenames(p)
    ensures EveryEditLands(md, internal) <==> EveryEntryFirst(md, internal)
  {
    hide NeedsVersion, ActiveTarget;
    forall p, k: nat | p in md.packages && p.id in internal && k < |p.dependencies| && Needs(md, internal, p, k)
      ensures (exists i :: 0 <= i < |p.dependencies| && Gives(md, internal, p, i, k)) <==>
                EditedEntry(p, p.dependencies[k].name) == Some(k)
    {
      if i :| 0 <= i < |p.dependencies| && Gives(md, internal, p, i, k) {
        LineHasName(p, p.dependencies[i].name, k);
      }
      if EditedEntry(p, p.dependencies[k].name) == Some(k) {
        assert Gives(md, internal, p, k, k);
      }
    }
  }

  lemma LineHasName(p: Package, name: string, k: nat)
    requires NoRenames(p) && EditedEntry(p, name) == Some(k)
    ensures p.dependencies[k].name == name
  {
    var l := FirstLine(p.lines, name).value;
    assert l in p.lines && l.key == name;
  }

  // ----- An edit for each entry means one edit for each entry

  ghost predicate Injective(m: map<nat, nat>) {
    forall a, b :: a in m && b in m && m[a] == m[b] ==> a == b
  }

  lemma {:induction false} InjectiveValues(m: map<nat, nat>)
    requires Injective(m)
    ensures |m.Values| == |m.Keys|
    decreases |m.Keys|
  {
    if m.Keys == {} {
      assert m.Values == {};
    } else {
      var x :| x in m.Keys;
      var rest := m - {x};
      assert rest.Keys == m.Keys - {x};
      InjectiveValues(rest);
      ValuesWithout(m, x);
    }
  }

  lemma ValuesWithout(m: map<nat, nat>, x: nat)
    requires x in m && Injective(m)
    ensures m.Values == (m - {x}).Values + {m[x]} && m[x] !in (m - {x}).Values
  {
    var rest := m - {x};
    forall v
      ensures v in m.Values <==> v in rest.Values || v == m[x]
    {
      if v in m.Values {
        var k :| k in m && m[k] == v;
        assert k == x || (k in rest && rest[k] == v);
      }
      if v in rest.Values {
        var k :| k in rest && rest[k] == v;
        assert k in m;
      }
    }
  }

  lemma SubsetOfSameSize(a: set<nat>, b: set<nat>)
    requires a <= b && |a| == |b|
    ensures a == b
  {
    if x :| x in b && x !in a {
      SubsetSize(a, b - {x});
    }
  }

  lemma {:induction false} SubsetSize(a: set<nat>, b: set<nat>)
    requires a <= b
    ensures |a| <= |b|
    decreases |a|
  {
    if x :| x in a {
      SubsetSize(a - {x}, b - {x});
    }
  }

  /** An injective map of a finite set into itself reaches every element. */
  lemma InjectiveIsOnto(m: map<nat, nat>, i: nat)
    requires Injective(m)
    requires m.Values <= m.Keys && i in m
    ensures exists k :: k in m && m[k] == i
  {
    hide Injective;
    InjectiveValues(m);
    SubsetOfSameSize(m.Values, m.Keys);
    assert i in m.Values;
  }

  /** Some entry whose edit gives entry `k` its version. */
  ghost function Giver(md: Metadata, internal: set<string>, p: Package, k: nat): (i: nat)
    requires Needs(md, internal, p, k)
    requires exists i :: 0 <= i < |p.dependencies| && Gives(md, internal, p, i, k)
    ensures i < |p.dependencies| && Gives(md, internal, p, i, k)
  {
    var i :| 0 <= i < |p.dependencies| && Gives(md, internal, p, i, k);
    i
  }

  /** If every entry in need is given its version, the edit made for an entry gives some entry its version. */
  lemma EveryGiverGives(md: Metadata, internal: set<string>, p: Package, i: nat)
    requires EveryEditLands(md, internal) && p in md.packages && p.id in internal && Needs(md, internal, p, i)
    ensures var k := EditedEntry(p, p.dependencies[i].name);
            k.Some? && Needs(md, internal, p, k.value) && Gives(md, internal, p, i, k.value)
  {
    hide NeedsVersion, EditedEntry, Wanted, Gives, EveryEditLands;
    forall k: nat | Needs(md, internal, p, k)
      ensures exists i :: 0 <= i < |p.dependencies| && Gives(md, internal, p, i, k)
    {
      LandsAt(md, internal, p, k);
    }
    var giver := map k: nat | 0 <= k < |p.dependencies| && Needs(md, internal, p, k) :: Giver(md, internal, p, k);
    forall a, b | a in giver && b in giver && giver[a] == giver[b]
      ensures a == b
    {
      GivesOne(md, internal, p, giver[a], a, b);
    }
    forall v | v in giver.Values
      ensures v in giver.Keys
    {
      var a :| a in giver && giver[a] == v;
      GivesOne(md, internal, p, v, a, a);
    }
    InjectiveIsOnto(giver, i);
    var k :| k in giver && giver[k] == i;
    GivesOne(md, internal, p, i, k, k);
  }

  /** An edit gives at most one entry its version. */
  lemma GivesOne(md: Metadata, internal: set<string>, p: Package, i: nat, a: nat, b: nat)
    requires Needs(md, internal, p, a) && Needs(md, internal, p, b)
    requires Gives(md, internal, p, i, a) && Gives(md, internal, p, i, b)
    ensures a == b && Needs(md, internal, p, i) && EditedEntry(p, p.dependencies[i].name) == Some(a)
  {
  }

  lemma LandsAt(md: Metadata, internal: set<string>, p: Package, k: nat)
    requires EveryEditLands(md, internal) && p in md.packages && p.id in internal && Needs(md, internal, p, k)
    ensures exists i :: 0 <= i < |p.dependencies| && Gives(md, internal, p, i, k)
  {
  }

  // ----- The plan's operations and the entries they set

  /** An operation of the plan that sets an entry was made for an entry of the same package. */
  lemma SetterIsPlanned(md: Metadata, internal: set<string>, p: Package, k: nat, op: Operation) returns (i: nat)
    requires Consistent(md) && p in md.packages && InPlan(md, internal, op) && Sets(p, k, op)
    ensures p.id in internal && Needs(md, internal, p, i)
    ensures EditedEntry(p, p.dependencies[i].name) == Some(k) && op.expected == Wanted(md, internal, p, i)
  {
    hide NeedsVersion, ActiveTarget, Find, EditedEntry;
    var q :| InternalOp(md, internal, q, op) || ExternalOp(md, internal, q, op);
    OpManifest(md, internal, q, op);
    assert q == p;
    var d :| d in p.dependencies && IsDependencyOp(md, internal, p, d, op);
    i :| 0 <= i < |p.dependencies| && p.dependencies[i] == d;
  }

  /** The operation the plan holds for an entry. */
  lemma OperationFor(md: Metadata, internal: set<string>, p: Package, i: nat) returns (op: Operation)
    requires p in md.packages && p.id in internal && p.manifest.Some? && Needs(md, internal, p, i)
    ensures InPlan(md, internal, op)
    ensures op == SetPathVersion(p.manifest.value, p.name, p.dependencies[i].name, Wanted(md, internal, p, i))
  {
    hide NeedsVersion, ActiveTarget;
    op := VersionOperation(md, internal, p, p.dependencies[i]);
    assert IsDependencyOp(md, internal, p, p.dependencies[i], op);
    assert InternalOp(md, internal, p, op);
    PlanHolds(md, internal, p, op);
  }

  /** If every edit lands, the plan's operations leave each entry with the version it has to have. */
  lemma EntryAfter(md: Metadata, internal: set<string>, ops: seq<Operation>, p: Package, k: nat)
    requires Consistent(md) && EveryEditLands(md, internal)
    requires p in md.packages && p.id in internal && p.manifest.Some? && k < |p.dependencies|
    requires forall op :: op in ops <==> InPlan(md, internal, op)
    ensures FinalReq(p, k, p.dependencies[k].req, ops)
         == if Needs(md, internal, p, k) then Wanted(md, internal, p, k) else p.dependencies[k].req
  {
    hide InPlan, NeedsVersion, Consistent, FinalReq, EditedEntry, EveryEditLands, Wanted;
    var expected := if Needs(md, internal, p, k) then Wanted(md, internal, p, k) else "";
    forall op | op in ops && Sets(p, k, op)
      ensures Needs(md, internal, p, k) && op.expected == expected
    {
      var i := SetterIsPlanned(md, internal, p, k, op);
      EveryGiverGives(md, internal, p, i);
    }
    FinalReqDecided(p, k, p.dependencies[k].req, ops, expected);
    if Needs(md, internal, p, k) {
      LandsAt(md, internal, p, k);
      var i := Giver(md, internal, p, k);
      var op := OperationFor(md, internal, p, i);
      assert op in ops && Sets(p, k, op);
    }
  }

  lemma PlanHolds(md: Metadata, internal: set<string>, p: Package, op: Operation)
    requires InternalOp(md, internal, p, op) || ExternalOp(md, internal, p, op)
    ensures InPlan(md, internal, op)
  {
    hide InternalOp, ExternalOp;
  }

  lemma PublishOps(md: Metadata, internal: set<string>, p: Package, op: Operation)
    requires Consistent(md) && p in md.packages && p.manifest.Some?
    requires InPlan(md, internal, op) && op.SetPublish? && op.manifest == p.manifest.value
    ensures if p.id in internal then op.publish && p.publish.Some?
            else !op.publish && p.id in md.workspace && p.publish.None?
  {
    hide NeedsVersion, ActiveTarget, Find;
    var q :| InternalOp(md, internal, q, op) || ExternalOp(md, internal, q, op);
    OpManifest(md, internal, q, op);
    assert q == p;
  }

  lemma PublishAfter(md: Metadata, internal: set<string>, ops: seq<Operation>, p: Package)
    requires Consistent(md) && p in md.packages && !SomeOutsideRoot(md, internal)
    requires p.id in internal ==> p.manifest.Some?
    requires forall op :: op in ops <==> InPlan(md, internal, op)
    ensures p.id in internal ==> FinalPublish(p.manifest, p.publish, ops).None?
    ensures p.id in md.workspace && p.id !in internal ==> FinalPublish(p.manifest, p.publish, ops).Some?
  {
    hide InPlan, Consistent, IsDependencyOp;
    if p.manifest.None? {
      NoManifestNoChange(p.publish, ops);
    } else {
      var value := p.id in internal;
      forall op | op in ops && op.SetPublish? && op.manifest == p.manifest.value
        ensures op.publish == value
      {
        PublishOps(md, internal, p, op);
      }
      FinalPublishDecided(p.manifest.value, p.publish, ops, value);
      var op := SetPublish(p.manifest.value, p.name, value);
      if value && p.publish.Some? {
        PlanHolds(md, internal, p, op);
      }
      if !value && p.id in md.workspace && p.publish.None? {
        PlanHolds(md, internal, p, op);
      }
    }
  }

  lemma {:induction false} NoManifestNoChange(publish: Option<seq<string>>, ops: seq<Operation>)
    ensures FinalPublish(None, publish, ops) == publish
    decreases |ops|
  {
    if ops != [] {
      NoManifestNoChange(publish, ops[1..]);
    }
  }

  lemma InternalManifest(md: Metadata, closure: set<string>, p: Package)
    requires Consistent(md) && p in md.packages && p.id in Internal(md, closure)
    ensures p.manifest.Some?
  {
    FoundIs(md, p);
  }

  // ----- When applying stops

  /** Applying a plan is carried through exactly if every entry that needs a version has a line under its name. */
  lemma AppliedExactly(md: Metadata, names: seq<string>, plan: Plan)
    requires Consistent(md) && IsPlan(md, names, plan)
    ensures (forall op :: op in plan.operations ==> Finds(md, op)) <==> EveryLineFound(md, plan.internal)
  {
    hide InPlan, IsPlan, NeedsVersion, FirstLine, Consistent, SomeLeavesClosure, SomeOutsideRoot;
    var internal := plan.internal;
    PlanFacts(md, names, plan);
    if EveryLineFound(md, internal) {
      forall op | op in plan.operations
        ensures Finds(md, op)
      {
        PlannedIsFound(md, internal, op);
      }
    }
    if forall op :: op in plan.operations ==> Finds(md, op) {
      forall p, k: nat | p in md.packages && p.id in internal && k < |p.dependencies| && Needs(md, internal, p, k)
        ensures FirstLine(p.lines, p.dependencies[k].name).Some?
      {
        var op := OperationFor(md, internal, p, k);
        FoundInItsPackage(md, p, op);
      }
    }
  }

  lemma PlannedIsFound(md: Metadata, internal: set<string>, op: Operation)
    requires EveryLineFound(md, internal) && InPlan(md, internal, op)
    ensures Finds(md, op)
  {
    hide NeedsVersion, FirstLine;
    var p :| InternalOp(md, internal, p, op) || ExternalOp(md, internal, p, op);
    OpManifest(md, internal, p, op);
    if op.SetPathVersion? {
      var d :| d in p.dependencies && IsDependencyOp(md, internal, p, d, op);
      var k: nat :| k < |p.dependencies| && p.dependencies[k] == d;
      assert Needs(md, internal, p, k);
    }
  }

  lemma FoundInItsPackage(md: Metadata, p: Package, op: Operation)
    requires Consistent(md) && p in md.packages && p.manifest == Some(op.manifest)
    requires op.SetPathVersion? && Finds(md, op)
    ensures FirstLine(p.lines, op.dependency).Some?
  {
    hide FirstLine, Find;
  }

  /** If every edit lands, every edit finds a line. */
  lemma LandingIsFinding(md: Metadata, internal: set<string>)
    requires EveryEditLands(md, internal)
    ensures EveryLineFound(md, internal)
  {
    hide NeedsVersion, Wanted;
    forall p, k: nat | p in md.packages && p.id in internal && k < |p.dependencies| && Needs(md, internal, p, k)
      ensures FirstLine(p.lines, p.dependencies[k].name).Some?
    {
      EveryGiverGives(md, internal, p, k);
    }
  }

  // ----- The workspace a plan leaves behind

  /** Everything published that should be, and only that. */
  ghost predicate Published(md: Metadata, internal: set<string>) {
    && (forall p :: p in md.packages && p.id in internal ==> p.publish.None?)
    && (forall p :: p in md.packages && p.id in md.workspace && p.id !in internal ==> p.publish.Some?)
  }

  /** Exact versions inside the closure. */
  ghost predicate Exact(md: Metadata, internal: set<string>) {
    forall p, d :: p in md.packages && p.id in internal && d in p.dependencies ==> !NeedsVersion(md, internal, p.id, d)
  }

  lemma PlanPublishes(md: Metadata, names: seq<string>, plan: Plan)
    requires Consistent(md) && IsPlan(md, names, plan)
    ensures Published(AppliedAll(md, plan.operations), plan.internal)
  {
    hide InPlan, IsPlan, Consistent, SameBut, FinalReq, AppliedAll, SomeOutsideRoot;
    var ops, internal := plan.operations, plan.internal;
    PlanFacts(md, names, plan);
    AppliedPackages(md, ops);
    forall q | q in AppliedAll(md, ops).packages
      ensures q.id in internal ==> q.publish.None?
      ensures q.id in md.workspace && q.id !in internal ==> q.publish.Some?
    {
      var p := EditedFrom(md, ops, q);
      SameIdentity(p, q);
      PublishAfter(md, internal, ops, p);
    }
  }

  lemma PlanFacts(md: Metadata, names: seq<string>, plan: Plan)
    requires Consistent(md) && IsPlan(md, names, plan)
    ensures HasClosure(md, names, plan.closure) && plan.internal == Internal(md, plan.closure)
    ensures !SomeLeavesClosure(md, plan.internal) && !SomeOutsideRoot(md, plan.internal)
    ensures forall op :: op in plan.operations <==> InPlan(md, plan.internal, op)
    ensures forall p :: p in md.packages && p.id in plan.internal ==> p.manifest.Some?
  {
    hide InPlan, Gathers, Sorted, MissingRoot, IsClosure, Internal, Consistent, SomeLeavesClosure, SomeOutsideRoot;
    forall op
      ensures op in plan.operations <==> InPlan(md, plan.internal, op)
    {
      PlanHoldsExactly(md, names, plan, op);
    }
    forall p | p in md.packages && p.id in plan.internal
      ensures p.manifest.Some?
    {
      InternalManifest(md, plan.closure, p);
    }
  }

  lemma SameEntry(p: Package, q: Package, e: Dependency) returns (k: nat)
    requires SameBut(p, q) && e in q.dependencies
    ensures k < |p.dependencies| == |q.dependencies| && q.dependencies[k] == e == p.dependencies[k].(req := e.req)
  {
    k :| 0 <= k < |q.dependencies| && q.dependencies[k] == e;
  }

  lemma EntryExact(md: Metadata, after: Metadata, internal: set<string>, id: string, d: Dependency, e: Dependency)
    requires SameShape(md, after) && e == d.(req := e.req)
    requires e.req == if NeedsVersion(md, internal, id, d) then ExactVersion(ActiveTarget(md, id, d).value) else d.req
    ensures !NeedsVersion(after, internal, id, e)
  {
    hide ActiveTarget, SameShape;
    SameTarget(md, after, id, d, e);
  }

  /** If every edit lands, all versions are exact. */
  lemma PlanMakesExact(md: Metadata, names: seq<string>, plan: Plan)
    requires Consistent(md) && IsPlan(md, names, plan) && EveryEditLands(md, plan.internal)
    ensures Exact(AppliedAll(md, plan.operations), plan.internal)
  {
    hide InPlan, IsPlan, Consistent, SameBut, FinalReq, AppliedAll, SomeLeavesClosure, EveryEditLands, NeedsVersion,
        ActiveTarget;
    var ops, internal := plan.operations, plan.internal;
    var after := AppliedAll(md, ops);
    PlanFacts(md, names, plan);
    EditsKeepShape(md, ops);
    forall q, e | q in after.packages && q.id in internal && e in q.dependencies
      ensures !NeedsVersion(after, internal, q.id, e)
    {
      var p := EditedFrom(md, ops, q);
      var k := SameEntry(p, q, e);
      SameIdentity(p, q);
      EntryAfter(md, internal, ops, p, k);
      EntryExact(md, after, internal, p.id, p.dependencies[k], e);
    }
  }

  /** If some of the plan's operations make all versions exact, every edit lands. */
  lemma ExactMeansLanded(md: Metadata, internal: set<string>, ops: seq<Operation>)
    requires Consistent(md) && forall op :: op in ops ==> InPlan(md, internal, op)
    requires Exact(AppliedAll(md, ops), internal)
    ensures EveryEditLands(md, internal)
  {
    hide InPlan, Consistent, SameBut, FinalReq, AppliedAll, NeedsVersion, ActiveTarget, EditedEntry;
    var after := AppliedAll(md, ops);
    EditsKeepShape(md, ops);
    forall p, k: nat | p in md.packages && p.id in internal && k < |p.dependencies| && Needs(md, internal, p, k)
      ensures exists i :: 0 <= i < |p.dependencies| && Gives(md, internal, p, i, k)
    {
      var q := EditedTo(md, ops, p);
      SameIdentity(p, q);
      var d, e := p.dependencies[k], q.dependencies[k];
      EntryStays(p, q, k);
      assert e in q.dependencies && !NeedsVersion(after, internal, q.id, e);
      MadeExact(md, after, internal, p.id, d, e);
      FinalReqGiven(p, k, d.req, ops);
      var op :| op in ops && Sets(p, k, op) && op.expected == e.req;
      var i := SetterIsPlanned(md, internal, p, k, op);
      assert Gives(md, internal, p, i, k);
    }
  }

  lemma EntryStays(p: Package, q: Package, k: nat)
    requires SameBut(p, q) && k < |p.dependencies|
    ensures k < |q.dependencies| && q.dependencies[k] == p.dependencies[k].(req := q.dependencies[k].req)
  {
  }

  lemma MadeExact(md: Metadata, after: Metadata, internal: set<string>, id: string, d: Dependency, e: Dependency)
    requires SameShape(md, after) && e == d.(req := e.req)
    requires NeedsVersion(md, internal, id, d) && !NeedsVersion(after, internal, id, e)
    ensures e.req == ExactVersion(ActiveTarget(md, id, d).value) && e.req != d.req
  {
    hide ActiveTarget, SameShape;
    SameTarget(md, after, id, d, e);
  }

  /** No edit makes a dependency leave the closure, or brings it back. */
  lemma EditsKeepInside(md: Metadata, internal: set<string>, ops: seq<Operation>)
    requires !SomeLeavesClosure(md, internal)
    ensures !SomeLeavesClosure(AppliedAll(md, ops), internal)
  {
    hide SameBut, FinalReq, AppliedAll, ActiveTarget, SameShape;
    var after := AppliedAll(md, ops);
    EditsKeepShape(md, ops);
    forall q, e | q in after.packages && q.id in internal && e in q.dependencies
      ensures !LeavesClosure(after, internal, q.id, e)
    {
      var p := EditedFrom(md, ops, q);
      var k := SameEntry(p, q, e);
      SameIdentity(p, q);
      SameTarget(md, after, p.id, p.dependencies[k], e);
      assert !LeavesClosure(md, internal, p.id, p.dependencies[k]);
    }
  }

  /** No edit makes a package need one outside the root. */
  lemma EditsKeepInRoot(md: Metadata, internal: set<string>, ops: seq<Operation>)
    requires !SomeOutsideRoot(md, internal)
    ensures !SomeOutsideRoot(AppliedAll(md, ops), internal)
  {
    hide SameBut, FinalReq, AppliedAll;
    AppliedPackages(md, ops);
    forall q | q in AppliedAll(md, ops).packages && q.id in md.workspace && q.id !in internal && q.manifest.None?
      ensures q.publish.Some?
    {
      var p := EditedFrom(md, ops, q);
      SameIdentity(p, q);
      NoManifestNoChange(p.publish, ops);
    }
  }

  lemma NothingToDo(md: Metadata, internal: set<string>)
    requires !SomeLeavesClosure(md, internal)
    ensures (forall f :: !InReport(md, internal, f)) <==> Exact(md, internal) && Published(md, internal)
  {
    hide NeedsVersion, LeavesClosure, ActiveTarget;
    if !Exact(md, internal) {
      var p, d :| p in md.packages && p.id in internal && d in p.dependencies && NeedsVersion(md, internal, p.id, d);
      NeedIsReported(md, internal, p, d, VersionFinding(md, internal, p, d));
    } else if !Published(md, internal) {
      if p :| p in md.packages && p.id in internal && p.publish.Some? {
        assert InternalFinding(md, internal, p, ReachableUnpublishable(p.id));
        assert InReport(md, internal, ReachableUnpublishable(p.id));
      } else {
        var p :| p in md.packages && p.id in md.workspace && p.id !in internal && p.publish.None?;
        assert OutsideFinding(md, internal, p, OutsidePublishable(p.id));
        assert InReport(md, internal, OutsidePublishable(p.id));
      }
    }
  }

  lemma NothingToPlan(md: Metadata, internal: set<string>)
    requires !SomeOutsideRoot(md, internal)
    requires forall p :: p in md.packages && p.id in internal ==> p.manifest.Some?
    ensures (forall op :: !InPlan(md, internal, op)) <==> Exact(md, internal) && Published(md, internal)
  {
    hide NeedsVersion, VersionOperation;
    if !Exact(md, internal) {
      var p, d :| p in md.packages && p.id in internal && d in p.dependencies && NeedsVersion(md, internal, p.id, d);
      var op := VersionOperation(md, internal, p, d);
      assert IsDependencyOp(md, internal, p, d, op);
      assert InternalOp(md, internal, p, op);
      assert InPlan(md, internal, op);
    } else if !Published(md, internal) {
      if p :| p in md.packages && p.id in internal && p.publish.Some? {
        assert InternalOp(md, internal, p, SetPublish(p.manifest.value, p.name, true));
        assert InPlan(md, internal, SetPublish(p.manifest.value, p.name, true));
      } else {
        var p :| p in md.packages && p.id in md.workspace && p.id !in internal && p.publish.None?;
        assert ExternalOp(md, internal, p, SetPublish(p.manifest.value, p.name, false));
        assert InPlan(md, internal, SetPublish(p.manifest.value, p.name, false));
      }
    }
  }

  function VersionFinding(md: Metadata, internal: set<string>, p: Package, d: Dependency): Finding
    requires NeedsVersion(md, internal, p.id, d)
  {
    var target := ActiveTarget(md, p.id, d).value;
    WrongVersion(p.id, d.name, target.name, d.req, ExactVersion(target))
  }

  lemma NeedIsReported(md: Metadata, internal: set<string>, p: Package, d: Dependency, f: Finding)
    requires p in md.packages && p.id in internal && d in p.dependencies && NeedsVersion(md, internal, p.id, d)
    requires f == VersionFinding(md, internal, p, d)
    ensures InReport(md, internal, f)
  {
    hide NeedsVersion, LeavesClosure, ActiveTarget;
    assert DependencyFinding(md, internal, p, d, f);
    assert InternalFinding(md, internal, p, f);
  }

  // ----- The main results

  /** What holds of the workspace after any edits. */
  lemma AfterEdits(md: Metadata, names: seq<string>, closure: set<string>, ops: seq<Operation>)
    requires Consistent(md) && HasClosure(md, names, closure)
    requires !SomeLeavesClosure(md, Internal(md, closure)) && !SomeOutsideRoot(md, Internal(md, closure))
    ensures var after, internal := AppliedAll(md, ops), Internal(md, closure);
            && Consistent(after) && HasClosure(after, names, closure) && Internal(after, closure) == internal
            && !SomeLeavesClosure(after, internal) && !SomeOutsideRoot(after, internal)
  {
    hide MissingRoot, IsClosure, Internal, Consistent, SomeLeavesClosure, SomeOutsideRoot, AppliedAll, SameShape,
        RootIds, HasClosure;
    EditsKeepConsistent(md, ops);
    EditsKeepShape(md, ops);
    ShapeKeepsGraph(md, AppliedAll(md, ops), names, closure);
    EditsKeepInside(md, Internal(md, closure), ops);
    EditsKeepInRoot(md, Internal(md, closure), ops);
  }

  /** What applying a plan leaves behind is as it should be exactly if every edit lands. */
  lemma LeftBehindExactly(md: Metadata, names: seq<string>, plan: Plan)
    requires Consistent(md) && IsPlan(md, names, plan)
    ensures var after := LeftBehind(md, plan.operations);
            Exact(after, plan.internal) && Published(after, plan.internal) <==> EveryEditLands(md, plan.internal)
  {
    hide InPlan, IsPlan, Consistent, AppliedAll, Exact, Published, EveryEditLands, EveryLineFound, Finds,
        SomeLeavesClosure, SomeOutsideRoot;
    var ops, internal := plan.operations, plan.internal;
    var n := Steps(md, ops);
    PlanFacts(md, names, plan);
    if EveryEditLands(md, internal) {
      LandingIsFinding(md, internal);
      AppliedExactly(md, names, plan);
      AllSteps(md, ops);
      assert ops[..n] == ops;
      PlanMakesExact(md, names, plan);
      PlanPublishes(md, names, plan);
    }
    if Exact(LeftBehind(md, ops), internal) {
      assert forall op :: op in ops[..n] ==> op in ops;
      ExactMeansLanded(md, internal, ops[..n]);
    }
  }

  /**
   Applying a plan is carried through if and only if every entry that needs a version has a line under its name. The
   auditor has no complaint about what is left behind, and planning again finds nothing to do, if and only if every
   edit lands; then applying is carried through. Planning and auditing again never fail.
   */
  lemma PlanSatisfiesAudit(md: Metadata, names: seq<string>, plan: Plan)
    requires Consistent(md) && IsPlan(md, names, plan)
    ensures var after, lands := LeftBehind(md, plan.operations), EveryEditLands(md, plan.internal);
            && Consistent(after)
            && (forall e :: !PlanFails(after, names, e))
            && ((forall op :: op in plan.operations ==> Finds(md, op)) <==> EveryLineFound(md, plan.internal))
            && (lands ==> EveryLineFound(md, plan.internal))
            && (forall report :: IsReport(after, names, report) ==> (report.findings == [] <==> lands))
            && (forall again :: IsPlan(after, names, again) ==> (again.operations == [] <==> lands))
  {
    hide AppliedAll, IsPlan, IsReport, PlanFails, HasClosure, Consistent, EveryEditLands, EveryLineFound, Published,
        Exact, Internal, SomeLeavesClosure, SomeOutsideRoot, Finds, InPlan;
    var ops := plan.operations;
    var after := LeftBehind(md, ops);
    PlanFacts(md, names, plan);
    AfterEdits(md, names, plan.closure, ops[..Steps(md, ops)]);
    AppliedExactly(md, names, plan);
    LeftBehindExactly(md, names, plan);
    if EveryEditLands(md, plan.internal) {
      LandingIsFinding(md, plan.internal);
    }
    forall e
      ensures !PlanFails(after, names, e)
    {
      PlanningSucceeds(after, names, plan.closure, e);
    }
    forall report | IsReport(after, names, report)
      ensures report.findings == [] <==> Exact(after, plan.internal) && Published(after, plan.internal)
    {
      CleanReport(after, names, plan.closure, report);
    }
    forall again | IsPlan(after, names, again)
      ensures again.operations == [] <==> Exact(after, plan.internal) && Published(after, plan.internal)
    {
      EmptyPlan(after, names, plan.closure, again);
    }
  }

  lemma PlanningSucceeds(md: Metadata, names: seq<string>, closure: set<string>, e: Error)
    requires HasClosure(md, names, closure)
    requires !SomeLeavesClosure(md, Internal(md, closure)) && !SomeOutsideRoot(md, Internal(md, closure))
    ensures !PlanFails(md, names, e)
  {
    hide MissingRoot, RootIds, Internal, SomeLeavesClosure, SomeOutsideRoot, Reachable;
    if e.OutsideClosure? || e.OutsideRoot? {
      forall other | HasClosure(md, names, other)
        ensures other == closure
      {
        ClosureUnique(md, RootIds(md.packages, names), closure, other);
      }
    }
  }

  lemma CleanReport(md: Metadata, names: seq<string>, closure: set<string>, report: Report)
    requires Consistent(md) && HasClosure(md, names, closure)
    requires !SomeLeavesClosure(md, Internal(md, closure)) && IsReport(md, names, report)
    ensures var internal := Internal(md, closure);
            report.findings == [] <==> Exact(md, internal) && Published(md, internal)
  {
    hide InReport, Covers, InOrder, MissingRoot, RootIds, IsClosure, Internal, SomeLeavesClosure, Published, Exact,
        Consistent;
    var internal := Internal(md, closure);
    ClosureUnique(md, RootIds(md.packages, names), closure, report.closure);
    forall f
      ensures f in report.findings <==> InReport(md, internal, f)
    {
      ReportHoldsExactly(md, names, report, f);
    }
    NothingToDo(md, internal);
    NothingIn(report.findings);
  }

  lemma EmptyPlan(md: Metadata, names: seq<string>, closure: set<string>, plan: Plan)
    requires Consistent(md) && HasClosure(md, names, closure) && IsPlan(md, names, plan)
    ensures var internal := Internal(md, closure);
            plan.operations == [] <==> Exact(md, internal) && Published(md, internal)
  {
    hide InPlan, IsPlan, MissingRoot, RootIds, IsClosure, Internal, SomeLeavesClosure, SomeOutsideRoot, Published,
        Exact, Consistent;
    PlanFacts(md, names, plan);
    ClosureUnique(md, RootIds(md.packages, names), closure, plan.closure);
    NothingToPlan(md, Internal(md, closure));
    NothingIn(plan.operations);
  }

  lemma NothingIn<T>(s: seq<T>)
    ensures s == [] || s[0] in s
  {
  }

  /** No edit, for whatever name, sets this entry's requirement. */
  predicate OutOfReach(p: Package, k: nat) {
    forall l :: l in p.lines ==> EditedEntry(p, l.key) != Some(k)
  }

  /** Where an entry in need is out of reach, no operations whatever, in any number of rounds, satisfy the auditor. */
  lemma NoOperationsSuffice(md: Metadata, names: seq<string>, ops: seq<Operation>, report: Report, p: Package, k: nat)
    requires Consistent(md) && IsReport(AppliedAll(md, ops), names, report)
    requires p in md.packages && p.id in report.internal && Needs(md, report.internal, p, k) && OutOfReach(p, k)
    ensures report.findings != []
  {
    hide InPlan, InReport, Consistent, SomeLeavesClosure, IsReport, AppliedAll, NeedsVersion, SameBut, FinalReq;
    var after := AppliedAll(md, ops);
    EditsKeepConsistent(md, ops);
    EditsKeepShape(md, ops);
    var q := EditedTo(md, ops, p);
    SameIdentity(p, q);
    var d := p.dependencies[k];
    forall op | op in ops
      ensures !Sets(p, k, op)
    {
      NeverSets(p, k, op);
    }
    FinalReqDecided(p, k, d.req, ops, "");
    EntryStays(p, q, k);
    StillNeeds(md, after, report.internal, p.id, d);
    assert q.dependencies[k] == d && d in q.dependencies;
    var f := VersionFinding(after, report.internal, q, d);
    NeedIsReported(after, report.internal, q, d, f);
    ReportHoldsExactly(after, names, report, f);
  }

  lemma NeverSets(p: Package, k: nat, op: Operation)
    requires OutOfReach(p, k)
    ensures !Sets(p, k, op)
  {
  }

  lemma StillNeeds(md: Metadata, after: Metadata, internal: set<string>, id: string, d: Dependency)
    requires SameShape(md, after) && NeedsVersion(md, internal, id, d)
    ensures NeedsVersion(after, internal, id, d)
  {
    hide ActiveTarget, SameShape;
    SameTarget(md, after, id, d, d);
  }

  datatype Migration = Migration(plan: Plan, report: Report, again: Plan)

  /** A plan, the audit of the workspace it leaves behind and the plan made for that workspace. */
  ghost predicate IsMigration(md: Metadata, names: seq<string>, m: Migration) {
    var after := LeftBehind(md, m.plan.operations);
    IsPlan(md, names, m.plan) && IsReport(after, names, m.report) && IsPlan(after, names, m.again)
  }

  /** Applying the plan stopped, with some of its edits made. */
  ghost predicate Stopped(md: Metadata, names: seq<string>, after: Metadata) {
    exists plan :: IsPlan(md, names, plan) && !EveryLineFound(md, plan.internal)
      && after == LeftBehind(md, plan.operations)
  }

  /** Plan, apply, audit and plan again; also returns the workspace as it is in the end. */
  method Migrate(md: Metadata, names: seq<string>) returns (r: Result<Migration, Error>, after: Metadata)
    requires Consistent(md)
    ensures r.Failure? ==>
      if r.error.EntryNotFound? then Stopped(md, names, after) else PlanFails(md, names, r.error) && after == md
    ensures r.Success? ==>
      && IsMigration(md, names, r.value) && after == LeftBehind(md, r.value.plan.operations)
      && EveryLineFound(md, r.value.plan.internal)
    ensures r.Success? ==>
      var lands := EveryEditLands(md, r.value.plan.internal);
      (r.value.report.findings == [] <==> lands) && (r.value.again.operations == [] <==> lands)
  {
    hide IsPlan, IsReport, LeftBehind, Consistent, EveryEditLands, EveryLineFound, Finds, MissingRoot, HasClosure;
    after := md;
    var planned := BuildPlan(md, names);
    if planned.Failure? {
      return Failure(planned.error), after;
    }
    var plan := planned.value;
    var error;
    PlanSatisfiesAudit(md, names, plan);
    after, error := ApplyPlan(md, plan.operations);
    if error.Some? {
      return Failure(error.value), after;
    }
    var report := Audit(after, names);
    var again := BuildPlan(after, names);
    return Success(Migration(plan, report.value, again.value)), after;
  }

  // ----- The plan answers the report

  /** A finding that calls for an operation, on the manifest of the package it is about. */
  ghost predicate Answerable(md: Metadata, f: Finding) {
    var p := Find(md.packages, f.package);
    !f.LeavingDependency? && p.Some? && p.value.manifest.Some?
  }

  /** The operation that answers a finding. */
  ghost function Answer(md: Metadata, f: Finding): Operation
    requires Answerable(md, f)
  {
    var p := Find(md.packages, f.package).value;
    if f.WrongVersion? then SetPathVersion(p.manifest.value, p.name, f.dependency, f.expected)
    else SetPublish(p.manifest.value, p.name, f.ReachableUnpublishable?)
  }

  ghost predicate AllAnswerable(md: Metadata, findings: seq<Finding>) {
    forall f :: f in findings ==> Answerable(md, f)
  }

  /** The operations that answer the findings, in the findings' order. */
  ghost function Answers(md: Metadata, findings: seq<Finding>): seq<Operation>
    requires AllAnswerable(md, findings)
  {
    seq(|findings|, i requires 0 <= i < |findings| => Answer(md, findings[i]))
  }

  lemma AnswersConcat(md: Metadata, a: seq<Finding>, b: seq<Finding>)
    requires AllAnswerable(md, a + b)
    ensures AllAnswerable(md, a) && AllAnswerable(md, b)
    ensures Answers(md, a + b) == Answers(md, a) + Answers(md, b)
  {
    hide Answer, Answerable;
    assert forall f :: f in a || f in b ==> f in a + b;
  }

  /** The answers on one manifest come from the findings about its package. */
  lemma {:induction false} AnswersAbout(md: Metadata, findings: seq<Finding>, p: Package, key: Operation)
    requires Consistent(md) && p in md.packages && p.manifest == Some(key.manifest) && AllAnswerable(md, findings)
    ensures AllAnswerable(md, About(findings, p.id))
    ensures WithKey(Answers(md, findings), key) == WithKey(Answers(md, About(findings, p.id)), key)
  {
    hide Answer, Answerable, Consistent, SameKey;
    if findings == [] {
    } else {
      var f, rest := findings[0], findings[1..];
      assert findings == [f] + rest;
      AnswersConcat(md, [f], rest);
      AnswersAbout(md, rest, p, key);
      WithKeyConcat(Answers(md, [f]), Answers(md, rest), key);
      if f.package == p.id {
        assert About(findings, p.id) == [f] + About(rest, p.id);
        AnswersConcat(md, [f], About(rest, p.id));
        WithKeyConcat(Answers(md, [f]), Answers(md, About(rest, p.id)), key);
      } else {
        assert About(findings, p.id) == About(rest, p.id);
        OtherManifest(md, f, p);
        NoneWithKey(Answers(md, [f]), key);
      }
    }
  }

  lemma OtherManifest(md: Metadata, f: Finding, p: Package)
    requires Consistent(md) && p in md.packages && p.manifest.Some? && Answerable(md, f) && f.package != p.id
    ensures Answer(md, f).manifest != p.manifest.value
  {
    hide Find;
  }

  /** The answers to the complaints about entries are the operations the entries call for. */
  lemma {:induction false} EntriesAnswered(md: Metadata, internal: set<string>, p: Package, ds: seq<Dependency>)
    requires Find(md.packages, p.id) == Some(p) && p.manifest.Some?
    requires forall d :: d in ds ==> !LeavesClosure(md, internal, p.id, d)
    ensures AllAnswerable(md, EntryFindings(md, internal, p, ds))
    ensures Answers(md, EntryFindings(md, internal, p, ds)) == EntryOperations(md, internal, p, ds)
  {
    hide ActiveTarget, LeavesClosure, Find, EntryFinding, VersionOperation, NeedsVersion;
    if ds != [] {
      var rest := EntryFindings(md, internal, p, ds[1..]);
      EntriesAnswered(md, internal, p, ds[1..]);
      EntryAnswered(md, internal, p, ds[0]);
      AnswersConcat(md, EntryFinding(md, internal, p, ds[0]), rest);
    }
  }

  lemma EntryAnswered(md: Metadata, internal: set<string>, p: Package, d: Dependency)
    requires Find(md.packages, p.id) == Some(p) && p.manifest.Some? && !LeavesClosure(md, internal, p.id, d)
    ensures AllAnswerable(md, EntryFinding(md, internal, p, d))
    ensures Answers(md, EntryFinding(md, internal, p, d))
         == if NeedsVersion(md, internal, p.id, d) then [VersionOperation(md, internal, p, d)] else []
  {
    hide ActiveTarget, Find;
  }

  /** Under each key, the answers to a package's findings are the operations it calls for. */
  lemma PackageAnswered(md: Metadata, internal: set<string>, p: Package, key: Operation)
    requires Find(md.packages, p.id) == Some(p) && p.manifest.Some?
    requires p.id in internal ==> forall d :: d in p.dependencies ==> !LeavesClosure(md, internal, p.id, d)
    ensures AllAnswerable(md, FindingsFor(md, internal, p))
    ensures WithKey(Answers(md, FindingsFor(md, internal, p)), key) == WithKey(OperationsFor(md, internal, p), key)
  {
    hide LeavesClosure, NeedsVersion, Find, EntryFindings, EntryOperations, WithKey, SameKey;
    if p.id in internal {
      var first := if PackagePublishable(p) then [] else [ReachableUnpublishable(p.id)];
      var publish := if p.publish.Some? then [SetPublish(p.manifest.value, p.name, true)] else [];
      var entries := EntryOperations(md, internal, p, p.dependencies);
      EntriesAnswered(md, internal, p, p.dependencies);
      AnswersConcat(md, first, EntryFindings(md, internal, p, p.dependencies));
      assert Answers(md, first) == publish;
      WithKeyConcat(publish, entries, key);
      WithKeyConcat(entries, publish, key);
      EntryOperationsMeans(md, internal, p, p.dependencies);
      KindsApart(entries, publish, key);
    } else {
      assert Answers(md, []) == [];
      if p.id in md.workspace && PackagePublishable(p) {
        assert Answers(md, [OutsidePublishable(p.id)]) == [SetPublish(p.manifest.value, p.name, false)];
      }
    }
  }

  /** Operations of both kinds never share a key. */
  lemma KindsApart(a: seq<Operation>, b: seq<Operation>, key: Operation)
    requires (forall op :: op in a ==> op.SetPathVersion?) && (forall op :: op in b ==> op.SetPublish?)
    ensures WithKey(a, key) + WithKey(b, key) == WithKey(b, key) + WithKey(a, key)
  {
    hide WithKey;
    if key.SetPathVersion? {
      NoneOfKey(b, key);
    } else {
      NoneOfKey(a, key);
    }
  }

  /**
   When planning succeeds, the plan is the sorted list of the operations that answer the auditor's findings on the
   same metadata: one for each finding, and in the findings' order where the sort key does not tell them apart.
   */
  lemma PlanMatchesReport(md: Metadata, names: seq<string>, plan: Plan, report: Report)
    requires Consistent(md) && IsPlan(md, names, plan) && IsReport(md, names, report)
    ensures plan.closure == report.closure && plan.internal == report.internal
    ensures AllAnswerable(md, report.findings)
    ensures plan.operations == SortOperations(Answers(md, report.findings))
    ensures |plan.operations| == |report.findings|
  {
    hide Gathers, Covers, SomeLeavesClosure, SomeOutsideRoot, Consistent, Internal, Sorted, MissingRoot, IsClosure,
        InOrder, RootIds, AllAnswerable, Answers, WithKey, SortOperations;
    var internal := plan.internal;
    ClosureUnique(md, RootIds(md.packages, names), plan.closure, report.closure);
    FindingsAnswerable(md, names, plan, report);
    var answers := Answers(md, report.findings);
    AnswersGather(md, names, plan, report);
    GathersSorted(md, internal, md.workspace, answers);
    SortOperationsMeans(answers);
    GathersSame(md, internal, md.workspace, plan.operations, SortOperations(answers));
    SortedUnique(plan.operations, SortOperations(answers));
    SameLength(md, report.findings);
  }

  lemma SameLength(md: Metadata, findings: seq<Finding>)
    requires AllAnswerable(md, findings)
    ensures |SortOperations(Answers(md, findings))| == |findings|
  {
    hide AllAnswerable, Answer, SortOperations, Sorted, WithKey;
    var answers := Answers(md, findings);
    SortOperationsMeans(answers);
    assert |multiset(SortOperations(answers))| == |multiset(answers)|;
  }

  lemma FindingsAnswerable(md: Metadata, names: seq<string>, plan: Plan, report: Report)
    requires Consistent(md) && IsPlan(md, names, plan) && IsReport(md, names, report)
    requires plan.internal == report.internal
    ensures AllAnswerable(md, report.findings)
  {
    hide IsPlan, IsReport, InPlan, HasClosure, Internal, MissingRoot, InternalFinding, OutsideFinding;
    PlanFacts(md, names, plan);
    forall f | f in report.findings
      ensures Answerable(md, f)
    {
      ReportHoldsExactly(md, names, report, f);
      var p :| InternalFinding(md, plan.internal, p, f) || OutsideFinding(md, plan.internal, p, f);
      FindingPackage(md, plan.internal, p, f);
      FoundIs(md, p);
      FindingHasManifest(md, plan.internal, p, f);
    }
  }

  lemma FindingHasManifest(md: Metadata, internal: set<string>, p: Package, f: Finding)
    requires InternalFinding(md, internal, p, f) || OutsideFinding(md, internal, p, f)
    requires !SomeLeavesClosure(md, internal) && !SomeOutsideRoot(md, internal)
    requires p.id in internal ==> p.manifest.Some?
    ensures p.manifest.Some? && !f.LeavingDependency?
  {
    hide ActiveTarget;
  }

  lemma AnswersGather(md: Metadata, names: seq<string>, plan: Plan, report: Report)
    requires Consistent(md) && IsPlan(md, names, plan) && IsReport(md, names, report)
    requires plan.internal == report.internal && AllAnswerable(md, report.findings)
    ensures Gathers(md, plan.internal, md.workspace, Answers(md, report.findings))
  {
    hide Sorted, InOrder, HasClosure, MissingRoot, IsClosure, Internal, FindingsFor, OperationsFor, WithKey, About,
        LeavesClosure, SomeOutsideRoot, SameKey;
    var internal, findings := plan.internal, report.findings;
    forall op | op in Answers(md, findings)
      ensures EditsMember(md, md.workspace, op)
    {
      var i :| 0 <= i < |findings| && Answer(md, findings[i]) == op;
      assert findings[i] in findings;
    }
    forall p, key: Operation | p in md.packages && p.id in md.workspace && p.manifest == Some(key.manifest)
      ensures WithKey(Answers(md, findings), key) == WithKey(OperationsFor(md, internal, p), key)
    {
      FoundIs(md, p);
      AnswersAbout(md, findings, p, key);
      PackageAnswered(md, internal, p, key);
    }
  }

  /** The planner refuses a dependency leaving the closure exactly when the auditor reports one. */
  lemma RefusalsAreReported(md: Metadata, names: seq<string>, report: Report)
    requires Consistent(md) && IsReport(md, names, report)
    ensures PlanFails(md, names, OutsideClosure) <==> exists f :: f in report.findings && f.LeavingDependency?
  {
    hide IsReport, InReport, LeavesClosure, NeedsVersion, IsClosure, MissingRoot, RootIds, Internal, Consistent;
    forall f
      ensures f in report.findings <==> InReport(md, report.internal, f)
    {
      ReportHoldsExactly(md, names, report, f);
    }
    LeavingIsReported(md, report.internal);
    RefusedExactly(md, names, report);
  }

  lemma RefusedExactly(md: Metadata, names: seq<string>, report: Report)
    requires IsReport(md, names, report)
    ensures PlanFails(md, names, OutsideClosure) <==> SomeLeavesClosure(md, report.internal)
  {
    hide SomeLeavesClosure, IsClosure, MissingRoot, RootIds, Internal, Covers, InOrder;
    forall closure | HasClosure(md, names, closure)
      ensures closure == report.closure
    {
      ClosureUnique(md, RootIds(md.packages, names), closure, report.closure);
    }
  }

  lemma LeavingIsReported(md: Metadata, internal: set<string>)
    ensures SomeLeavesClosure(md, internal) <==> exists f :: InReport(md, internal, f) && f.LeavingDependency?
  {
    hide LeavesClosure, NeedsVersion;
    if SomeLeavesClosure(md, internal) {
      var p, d :| p in md.packages && p.id in internal && d in p.dependencies && LeavesClosure(md, internal, p.id, d);
      var f := LeavingDependency(p.id, d.name);
      assert DependencyFinding(md, internal, p, d, f);
      assert InternalFinding(md, internal, p, f);
      assert InReport(md, internal, f) && f.LeavingDependency?;
    }
    if f :| InReport(md, internal, f) && f.LeavingDependency? {
      var p :| InternalFinding(md, internal, p, f) || OutsideFinding(md, internal, p, f);
      var d :| d in p.dependencies && DependencyFinding(md, internal, p, d, f);
      assert LeavesClosure(md, internal, p.id, d);
    }
  }
}
