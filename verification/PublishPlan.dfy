/**
 The publish planner: it reads the resolved graph and lists the manifest edits that make the shipped
 closure publishable with exact internal versions and everything else unpublishable.
 */
module PublishPlan {
  import opened Wrappers
  import opened PublishGraph

  datatype Operation =
    | SetPathVersion(manifest: string, package: string, dependency: string, expected: string)
    | SetPublish(manifest: string, package: string, publish: bool)

  // ----- Looking things up

  /** The package with this id. */
  function Find(packages: seq<Package>, id: string): (r: Option<Package>)
    ensures r.Some? ==> r.value in packages && r.value.id == id
    ensures r.None? ==> forall p :: p in packages ==> p.id != id
  {
    if packages == [] then None
    else if packages[0].id == id then Some(packages[0])
    else Find(packages[1..], id)
  }

  /** The package whose manifest lies in the directory a path dependency names. */
  function PathTarget(packages: seq<Package>, path: string): (r: Option<Package>)
    ensures r.Some? ==> r.value in packages && r.value.dir == path
  {
    if packages == [] then None
    else if packages[0].dir == path then Some(packages[0])
    else PathTarget(packages[1..], path)
  }

  /** The ids of the packages with a selected name. */
  function RootIds(packages: seq<Package>, names: seq<string>): (ids: seq<string>)
    ensures forall id :: id in ids <==> exists p :: p in packages && p.id == id && p.name in names
  {
    if packages == [] then []
    else
      assert forall p :: p in packages <==> p == packages[0] || p in packages[1..];
      (if packages[0].name in names then [packages[0].id] else []) + RootIds(packages[1..], names)
  }

  predicate HasName(packages: seq<Package>, name: string) {
    exists p :: p in packages && p.name == name
  }

  /** Some selected name is the name of no package. */
  predicate MissingRoot(packages: seq<Package>, names: seq<string>) {
    exists n :: n in names && !HasName(packages, n)
  }

  /**
   Cargo's promise about its own output: ids are unique, packages have their own manifests, and every workspace
   member is described.
   */
  ghost predicate Consistent(md: Metadata) {
    && (forall p, q :: p in md.packages && q in md.packages && p.id == q.id ==> p == q)
    && (forall p, q :: p in md.packages && q in md.packages && p.manifest.Some? && p.manifest == q.manifest ==> p == q)
    && (forall id :: id in md.workspace ==> Find(md.packages, id).Some?)
  }

  /** Workspace members of the closure whose manifest lies below the workspace root. */
  function Internal(md: Metadata, closure: set<string>): (r: set<string>)
    ensures r <= closure && r <= md.workspace
  {
    set id | id in closure && id in md.workspace && Find(md.packages, id).Some?
             && Find(md.packages, id).value.manifest.Some?
  }

  // ----- What each package needs

  /** The workspace package a shipped path dependency stands for, if it is one of the active edges. */
  function ActiveTarget(md: Metadata, id: string, d: Dependency): (r: Option<Package>)
    ensures r.Some? ==> r.value in md.packages && r.value.id in Targets(md, id)
  {
    if d.kind == Dev || d.path.None? then None
    else
      match PathTarget(md.packages, d.path.value)
      case None => None
      case Some(target) => if target.id in Targets(md, id) then Some(target) else None
  }

  function ExactVersion(target: Package): string {
    "=" + target.version
  }

  /** A shipped path dependency on a package that will not be published. */
  predicate LeavesClosure(md: Metadata, internal: set<string>, id: string, d: Dependency) {
    ActiveTarget(md, id, d).Some? && ActiveTarget(md, id, d).value.id !in internal
  }

  /** A shipped path dependency inside the closure without the exact version. */
  predicate NeedsVersion(md: Metadata, internal: set<string>, id: string, d: Dependency) {
    && ActiveTarget(md, id, d).Some?
    && ActiveTarget(md, id, d).value.id in internal
    && d.req != ExactVersion(ActiveTarget(md, id, d).value)
  }

  /** The operation that gives entry `d` of package `p` the exact version of its target. */
  function VersionOperation(md: Metadata, internal: set<string>, p: Package, d: Dependency): Operation
    requires p.manifest.Some? && NeedsVersion(md, internal, p.id, d)
  {
    SetPathVersion(p.manifest.value, p.name, d.name, ExactVersion(ActiveTarget(md, p.id, d).value))
  }

  /** The operations the entries `ds` of package `p` call for: one for each that needs a version, in their order. */
  function EntryOperations(md: Metadata, internal: set<string>, p: Package, ds: seq<Dependency>): seq<Operation>
    requires p.manifest.Some?
  {
    if ds == [] then []
    else
      (if NeedsVersion(md, internal, p.id, ds[0]) then [VersionOperation(md, internal, p, ds[0])] else [])
      + EntryOperations(md, internal, p, ds[1..])
  }

  /** The operations a package calls for, whatever its place in the workspace. */
  function OperationsFor(md: Metadata, internal: set<string>, p: Package): seq<Operation> {
    if p.manifest.None? then []
    else if p.id in internal
    then
      EntryOperations(md, internal, p, p.dependencies)
      + (if p.publish.Some? then [SetPublish(p.manifest.value, p.name, true)] else [])
    else if p.id in md.workspace && p.publish.None? then [SetPublish(p.manifest.value, p.name, false)]
    else []
  }

  ghost predicate IsDependencyOp(md: Metadata, internal: set<string>, p: Package, d: Dependency, op: Operation) {
    p.manifest.Some? && NeedsVersion(md, internal, p.id, d) && op == VersionOperation(md, internal, p, d)
  }

  lemma {:induction false} EntryOperationsMeans(md: Metadata, internal: set<string>, p: Package, ds: seq<Dependency>)
    requires p.manifest.Some?
    ensures forall op :: op in EntryOperations(md, internal, p, ds) <==>
              exists d :: d in ds && IsDependencyOp(md, internal, p, d, op)
  {
    hide NeedsVersion, VersionOperation;
    if ds == [] {
    } else {
      EntryOperationsMeans(md, internal, p, ds[1..]);
      assert forall d :: d in ds <==> d == ds[0] || d in ds[1..];
      forall op
        ensures op in EntryOperations(md, internal, p, ds) <==>
                exists d :: d in ds && IsDependencyOp(md, internal, p, d, op)
      {
        assert op in EntryOperations(md, internal, p, ds) <==>
          IsDependencyOp(md, internal, p, ds[0], op) || op in EntryOperations(md, internal, p, ds[1..]);
      }
    }
  }

  // ----- The plan as a set of operations

  /** `op` belongs to the plan because of an internal package. */
  ghost predicate InternalOp(md: Metadata, internal: set<string>, p: Package, op: Operation) {
    && p in md.packages && p.id in internal && p.manifest.Some?
    && ((exists d :: d in p.dependencies && IsDependencyOp(md, internal, p, d, op))
        || (p.publish.Some? && op == SetPublish(p.manifest.value, p.name, true)))
  }

  /** `op` belongs to the plan because of another workspace member. */
  ghost predicate ExternalOp(md: Metadata, internal: set<string>, p: Package, op: Operation) {
    && p in md.packages && p.id in md.workspace && p.id !in internal && p.manifest.Some?
    && p.publish.None? && op == SetPublish(p.manifest.value, p.name, false)
  }

  ghost predicate InPlan(md: Metadata, internal: set<string>, op: Operation) {
    exists p :: InternalOp(md, internal, p, op) || ExternalOp(md, internal, p, op)
  }

  /** Some internal package has a shipped path dependency that leaves the closure. */
  ghost predicate SomeLeavesClosure(md: Metadata, internal: set<string>) {
    exists p, d :: p in md.packages && p.id in internal && d in p.dependencies && LeavesClosure(md, internal, p.id, d)
  }

  /** Some publishable workspace member outside the closure has no manifest below the root. */
  ghost predicate SomeOutsideRoot(md: Metadata, internal: set<string>) {
    exists p :: p in md.packages && p.id in md.workspace && p.id !in internal && p.publish.None? && p.manifest.None?
  }

  // ----- The order of the plan

  /** Comparison by code points, as Python compares strings. */
  predicate StringLeq(a: string, b: string) {
    if a == [] then true
    else if b == [] then false
    else if a[0] == b[0] then StringLeq(a[1..], b[1..])
    else a[0] < b[0]
  }

  lemma {:induction false} StringLeqTotal(a: string, b: string)
    ensures StringLeq(a, b) || StringLeq(b, a)
    ensures StringLeq(a, b) && StringLeq(b, a) ==> a == b
  {
    if a != [] && b != [] && a[0] == b[0] {
      StringLeqTotal(a[1..], b[1..]);
    }
  }

  lemma {:induction false} StringLeqTransitive(a: string, b: string, c: string)
    requires StringLeq(a, b) && StringLeq(b, c)
    ensures StringLeq(a, c)
  {
    if a != [] && a[0] == b[0] == c[0] {
      StringLeqTransitive(a[1..], b[1..], c[1..]);
    }
  }

  function KindName(op: Operation): string {
    if op.SetPathVersion? then "set-path-version" else "set-publish"
  }

  function DependencyName(op: Operation): string {
    if op.SetPathVersion? then op.dependency else ""
  }

  /** The sort key: manifest, then kind, then dependency. */
  predicate KeyLeq(a: Operation, b: Operation) {
    if a.manifest != b.manifest then StringLeq(a.manifest, b.manifest)
    else if KindName(a) != KindName(b) then StringLeq(KindName(a), KindName(b))
    else StringLeq(DependencyName(a), DependencyName(b))
  }

  predicate SameKey(a: Operation, b: Operation) {
    a.manifest == b.manifest && KindName(a) == KindName(b) && DependencyName(a) == DependencyName(b)
  }

  lemma KeyLeqTotal(a: Operation, b: Operation)
    ensures KeyLeq(a, b) || KeyLeq(b, a)
    ensures KeyLeq(a, b) && KeyLeq(b, a) ==> SameKey(a, b)
  {
    StringLeqTotal(a.manifest, b.manifest);
    StringLeqTotal(KindName(a), KindName(b));
    StringLeqTotal(DependencyName(a), DependencyName(b));
  }

  lemma KeyLeqTransitive(a: Operation, b: Operation, c: Operation)
    requires KeyLeq(a, b) && KeyLeq(b, c)
    ensures KeyLeq(a, c)
  {
    hide KindName, DependencyName;
    StringTransitive3(a.manifest, b.manifest, c.manifest);
    StringTransitive3(KindName(a), KindName(b), KindName(c));
    StringTransitive3(DependencyName(a), DependencyName(b), DependencyName(c));
    StringLeqTotal(a.manifest, b.manifest);
    StringLeqTotal(KindName(a), KindName(b));
  }

  lemma StringTransitive3(a: string, b: string, c: string)
    ensures StringLeq(a, b) && StringLeq(b, c) ==> StringLeq(a, c)
    ensures StringLeq(a, b) && StringLeq(b, a) ==> a == b
    ensures StringLeq(b, c) && StringLeq(c, b) ==> b == c
  {
    if StringLeq(a, b) && StringLeq(b, c) {
      StringLeqTransitive(a, b, c);
    }
    StringLeqTotal(a, b);
    StringLeqTotal(b, c);
  }

  ghost predicate Sorted(ops: seq<Operation>) {
    forall i, j :: 0 <= i < j < |ops| ==> KeyLeq(ops[i], ops[j])
  }

  /** A stable insertion: in front of the first element that is not smaller. */
  function Insert(op: Operation, ops: seq<Operation>): seq<Operation> {
    if ops == [] || KeyLeq(op, ops[0]) then [op] + ops else [ops[0]] + Insert(op, ops[1..])
  }

  function SortOperations(ops: seq<Operation>): seq<Operation> {
    if ops == [] then [] else Insert(ops[0], SortOperations(ops[1..]))
  }

  lemma {:induction false} InsertKeepsAll(op: Operation, ops: seq<Operation>)
    ensures multiset(Insert(op, ops)) == multiset(ops) + multiset{op}
  {
    hide KeyLeq;
    if ops != [] {
      InsertKeepsAll(op, ops[1..]);
      assert ops == [ops[0]] + ops[1..];
    }
  }

  lemma InsertHolds(op: Operation, ops: seq<Operation>, x: Operation)
    requires x in Insert(op, ops)
    ensures x == op || x in ops
  {
    hide Insert;
    InsertKeepsAll(op, ops);
    assert x in multiset(Insert(op, ops));
  }

  lemma HeadLeq(ops: seq<Operation>, op: Operation)
    requires Sorted(ops) && op in ops
    ensures KeyLeq(ops[0], op)
  {
    var i :| 0 <= i < |ops| && ops[i] == op;
    KeyLeqTotal(op, op);
  }

  lemma {:induction false} InsertSorted(op: Operation, ops: seq<Operation>)
    requires Sorted(ops)
    ensures Sorted(Insert(op, ops))
  {
    hide KeyLeq;
    if ops == [] {
    } else if KeyLeq(op, ops[0]) {
      forall x | x in ops
        ensures KeyLeq(op, x)
      {
        HeadLeq(ops, x);
        KeyLeqTransitive(op, ops[0], x);
      }
      SortedCons(op, ops);
    } else {
      var rest := ops[1..];
      InsertSorted(op, rest);
      KeyLeqTotal(op, ops[0]);
      forall x | x in Insert(op, rest)
        ensures KeyLeq(ops[0], x)
      {
        InsertHolds(op, rest, x);
        if x != op {
          HeadLeq(ops, x);
        }
      }
      SortedCons(ops[0], Insert(op, rest));
    }
  }

  lemma SortedCons(op: Operation, ops: seq<Operation>)
    requires Sorted(ops) && forall x :: x in ops ==> KeyLeq(op, x)
    ensures Sorted([op] + ops)
  {
    hide KeyLeq;
  }

  /** The operations with the sort key of `key`, in their order. */
  function WithKey(ops: seq<Operation>, key: Operation): seq<Operation> {
    if ops == [] then [] else (if SameKey(ops[0], key) then [ops[0]] else []) + WithKey(ops[1..], key)
  }

  lemma WithKeyUnfold(ops: seq<Operation>, key: Operation)
    ensures WithKey(ops, key)
         == if ops == [] then [] else (if SameKey(ops[0], key) then [ops[0]] else []) + WithKey(ops[1..], key)
  {
  }

  lemma {:induction false} WithKeyConcat(a: seq<Operation>, b: seq<Operation>, key: Operation)
    ensures WithKey(a + b, key) == WithKey(a, key) + WithKey(b, key)
  {
    hide SameKey, WithKey;
    WithKeyUnfold(a, key);
    if a == [] {
      assert a + b == b;
    } else {
      WithKeyUnfold(a + b, key);
      assert (a + b)[1..] == a[1..] + b;
      WithKeyConcat(a[1..], b, key);
      ConcatAssociates(if SameKey(a[0], key) then [a[0]] else [], WithKey(a[1..], key), WithKey(b, key));
    }
  }

  lemma ConcatAssociates<T>(a: seq<T>, b: seq<T>, c: seq<T>)
    ensures (a + b) + c == a + (b + c)
  {
  }

  lemma {:induction false} WithKeyHolds(ops: seq<Operation>, key: Operation)
    ensures forall op :: op in WithKey(ops, key) <==> op in ops && SameKey(op, key)
  {
    hide SameKey;
    if ops != [] {
      WithKeyHolds(ops[1..], key);
      assert forall op :: op in ops <==> op == ops[0] || op in ops[1..];
    }
  }

  lemma {:induction false} NoneOfKey(ops: seq<Operation>, key: Operation)
    requires forall op :: op in ops ==> !SameKey(op, key)
    ensures WithKey(ops, key) == []
  {
    hide SameKey;
    if ops != [] {
      NoneOfKey(ops[1..], key);
    }
  }

  lemma NoneWithKey(ops: seq<Operation>, key: Operation)
    requires forall op :: op in ops ==> op.manifest != key.manifest
    ensures WithKey(ops, key) == []
  {
    hide WithKey;
    NoneOfKey(ops, key);
  }

  lemma {:induction false} InsertKeepsKey(op: Operation, ops: seq<Operation>, key: Operation)
    ensures WithKey(Insert(op, ops), key) == WithKey([op] + ops, key)
  {
    hide SameKey, KeyLeq, WithKey;
    if ops != [] && !KeyLeq(op, ops[0]) {
      var head, rest := [ops[0]], ops[1..];
      assert ops == head + rest;
      InsertKeepsKey(op, rest, key);
      WithKeyConcat([op], ops, key);
      WithKeyConcat(head, rest, key);
      WithKeyConcat([op], rest, key);
      WithKeyConcat(head, Insert(op, rest), key);
      NotBothWithKey(op, ops[0], key);
      OneIsEmpty(WithKey(head, key), WithKey([op], key), WithKey(rest, key));
    }
  }

  lemma NotBothWithKey(a: Operation, b: Operation, key: Operation)
    requires !KeyLeq(a, b)
    ensures WithKey([a], key) == [] || WithKey([b], key) == []
  {
    hide SameKey, KeyLeq;
    assert [a][1..] == [] && [b][1..] == [];
    NotSameKey(a, b, key);
  }

  lemma OneIsEmpty<T>(a: seq<T>, b: seq<T>, c: seq<T>)
    requires a == [] || b == []
    ensures a + (b + c) == b + (a + c)
  {
  }

  lemma NotSameKey(a: Operation, b: Operation, key: Operation)
    requires !KeyLeq(a, b)
    ensures !(SameKey(a, key) && SameKey(b, key))
  {
    StringLeqTotal(DependencyName(a), DependencyName(a));
  }

  /** Sorting orders the operations, loses and adds none, and keeps those with the same key in their order. */
  lemma {:induction false} SortOperationsMeans(ops: seq<Operation>)
    ensures Sorted(SortOperations(ops)) && multiset(SortOperations(ops)) == multiset(ops)
    ensures forall key :: WithKey(SortOperations(ops), key) == WithKey(ops, key)
  {
    hide Sorted, SameKey, KeyLeq;
    if ops == [] {
      EmptyIsSorted();
    } else {
      var rest := SortOperations(ops[1..]);
      SortOperationsMeans(ops[1..]);
      InsertSorted(ops[0], rest);
      InsertKeepsAll(ops[0], rest);
      assert ops == [ops[0]] + ops[1..];
      forall key
        ensures WithKey(SortOperations(ops), key) == WithKey(ops, key)
      {
        InsertKeepsKey(ops[0], rest, key);
        WithKeyConcat([ops[0]], rest, key);
        WithKeyConcat([ops[0]], ops[1..], key);
      }
    }
  }

  lemma EmptyIsSorted()
    ensures Sorted([])
  {
  }

  /** Two sorted lists that agree on every key are the same list. */
  lemma {:induction false} SortedUnique(a: seq<Operation>, b: seq<Operation>)
    requires Sorted(a) && Sorted(b) && forall key :: WithKey(a, key) == WithKey(b, key)
    ensures a == b
  {
    hide KeyLeq, SameKey;
    if a == [] || b == [] {
      NoHead(a, b);
    } else {
      HeadsEqual(a, b);
      var p, q := a[1..], b[1..];
      assert a == [a[0]] + p && b == [a[0]] + q;
      forall key
        ensures WithKey(p, key) == WithKey(q, key)
      {
        WithKeyConcat([a[0]], p, key);
        WithKeyConcat([a[0]], q, key);
        assert WithKey(a, key)[|WithKey([a[0]], key)|..] == WithKey(p, key);
        assert WithKey(b, key)[|WithKey([a[0]], key)|..] == WithKey(q, key);
      }
      SortedUnique(p, q);
    }
  }

  lemma NoHead(a: seq<Operation>, b: seq<Operation>)
    requires (a == [] || b == []) && forall key :: WithKey(a, key) == WithKey(b, key)
    ensures a == b
  {
    HasOwnKey(a);
    HasOwnKey(b);
  }

  lemma HasOwnKey(ops: seq<Operation>)
    ensures ops != [] ==> WithKey(ops, ops[0]) != []
  {
  }

  lemma HeadsEqual(a: seq<Operation>, b: seq<Operation>)
    requires Sorted(a) && Sorted(b) && a != [] && b != []
    requires forall key :: WithKey(a, key) == WithKey(b, key)
    ensures a[0] == b[0]
  {
    hide KeyLeq, SameKey, WithKey, Sorted;
    FirstWithOwnKey(a);
    FirstWithOwnKey(b);
    WithKeyHolds(a, b[0]);
    WithKeyHolds(b, a[0]);
    assert a[0] in b && b[0] in a;
    HeadLeq(a, b[0]);
    HeadLeq(b, a[0]);
    KeyLeqTotal(a[0], b[0]);
    SameFirstWithKey(a, a[0], b[0]);
  }

  lemma FirstWithOwnKey(ops: seq<Operation>)
    requires ops != []
    ensures WithKey(ops, ops[0]) != [] && WithKey(ops, ops[0])[0] == ops[0] && ops[0] in WithKey(ops, ops[0])
  {
  }

  lemma SameFirstWithKey(ops: seq<Operation>, x: Operation, y: Operation)
    requires SameKey(x, y)
    ensures WithKey(ops, x) == WithKey(ops, y)
  {
  }

  // ----- The plan, package by package

  /** The operation edits the manifest of a package with its id in `members`. */
  ghost predicate EditsMember(md: Metadata, members: set<string>, op: Operation) {
    exists p :: p in md.packages && p.id in members && p.manifest == Some(op.manifest)
  }

  /**
   `ops` are what the packages in `members` call for: no operation edits another manifest, and under each sort key
   stand exactly the operations of the one package with that manifest, as often and in the order as it calls for them.
   */
  ghost predicate Gathers(md: Metadata, internal: set<string>, members: set<string>, ops: seq<Operation>) {
    && (forall op :: op in ops ==> EditsMember(md, members, op))
    && (forall p, key: Operation :: p in md.packages && p.id in members && p.manifest == Some(key.manifest) ==>
          WithKey(ops, key) == WithKey(OperationsFor(md, internal, p), key))
  }

  lemma GathersNothing(md: Metadata, internal: set<string>)
    ensures Gathers(md, internal, {}, [])
  {
  }

  lemma GathersOne(md: Metadata, internal: set<string>, p: Package)
    requires Consistent(md) && p in md.packages
    ensures Gathers(md, internal, {p.id}, OperationsFor(md, internal, p))
  {
    hide InternalOp, ExternalOp, WithKey, OperationsFor;
    OperationsForMeans(md, internal, p);
    forall op | op in OperationsFor(md, internal, p)
      ensures EditsMember(md, {p.id}, op)
    {
      OpManifest(md, internal, p, op);
    }
  }

  lemma GathersBoth(md: Metadata, internal: set<string>, a: set<string>, b: set<string>, first: seq<Operation>,
      second: seq<Operation>)
    requires Consistent(md) && a !! b && Gathers(md, internal, a, first) && Gathers(md, internal, b, second)
    ensures Gathers(md, internal, a + b, first + second)
  {
    hide WithKey, OperationsFor, Find;
    forall op | op in first + second
      ensures EditsMember(md, a + b, op)
    {
      var p :| p in md.packages && (p.id in a || p.id in b) && p.manifest == Some(op.manifest);
      assert p.id in a + b;
    }
    forall p, key: Operation | p in md.packages && p.id in a + b && p.manifest == Some(key.manifest)
      ensures WithKey(first + second, key) == WithKey(OperationsFor(md, internal, p), key)
    {
      WithKeyConcat(first, second, key);
      if p.id in a {
        NoneWithKey(second, key);
      } else {
        NoneWithKey(first, key);
      }
    }
  }

  lemma GathersSorted(md: Metadata, internal: set<string>, members: set<string>, ops: seq<Operation>)
    requires Gathers(md, internal, members, ops)
    ensures Gathers(md, internal, members, SortOperations(ops))
  {
    hide WithKey, OperationsFor, SortOperations, Sorted, EditsMember;
    SortOperationsMeans(ops);
    assert forall op :: op in SortOperations(ops) <==> op in multiset(SortOperations(ops));
    assert forall op :: op in ops <==> op in multiset(ops);
  }

  lemma OperationsForMeans(md: Metadata, internal: set<string>, p: Package)
    requires p in md.packages
    ensures forall op :: op in OperationsFor(md, internal, p) <==>
              InternalOp(md, internal, p, op) || ExternalOp(md, internal, p, op)
  {
    hide IsDependencyOp, EntryOperations;
    if p.manifest.Some? {
      EntryOperationsMeans(md, internal, p, p.dependencies);
    }
  }

  lemma OpManifest(md: Metadata, internal: set<string>, p: Package, op: Operation)
    requires InternalOp(md, internal, p, op) || ExternalOp(md, internal, p, op)
    ensures p in md.packages && p.manifest == Some(op.manifest) && op.package == p.name
    ensures op.SetPathVersion? ==> InternalOp(md, internal, p, op)
  {
    hide NeedsVersion, ActiveTarget;
  }

  // ----- The planner

  datatype Plan = Plan(closure: set<string>, internal: set<string>, operations: seq<Operation>)

  /** What the metadata call for, sorted, with operations of the same key in the order of the entries. */
  ghost predicate IsPlan(md: Metadata, names: seq<string>, plan: Plan) {
    && !MissingRoot(md.packages, names)
    && IsClosure(md, RootIds(md.packages, names), plan.closure)
    && plan.closure <= md.nodes.Keys
    && plan.internal == Internal(md, plan.closure)
    && !SomeLeavesClosure(md, plan.internal) && !SomeOutsideRoot(md, plan.internal)
    && Sorted(plan.operations)
    && Gathers(md, plan.internal, md.workspace, plan.operations)
  }

  /** Planning gets as far as the closure. */
  ghost predicate HasClosure(md: Metadata, names: seq<string>, closure: set<string>) {
    && !MissingRoot(md.packages, names)
    && IsClosure(md, RootIds(md.packages, names), closure) && closure <= md.nodes.Keys
  }

  /** Why planning stops: the first cause in the order in which the planner looks. */
  ghost predicate PlanFails(md: Metadata, names: seq<string>, e: Error) {
    match e
    case MissingRoots => MissingRoot(md.packages, names)
    case NoNode =>
      !MissingRoot(md.packages, names) && exists id :: Reachable(md, RootIds(md.packages, names), id) && id !in md.nodes
    case OutsideClosure =>
      exists closure :: HasClosure(md, names, closure) && SomeLeavesClosure(md, Internal(md, closure))
    case OutsideRoot =>
      exists closure :: HasClosure(md, names, closure)
        && !SomeLeavesClosure(md, Internal(md, closure)) && SomeOutsideRoot(md, Internal(md, closure))
    case EntryNotFound => false
  }

  /** The loop over one package's dependencies. */
  method PlanPackage(md: Metadata, internal: set<string>, p: Package) returns (r: Result<seq<Operation>, Error>)
    requires p.manifest.Some?
    ensures r.Failure? <==> exists d :: d in p.dependencies && LeavesClosure(md, internal, p.id, d)
    ensures r.Failure? ==> r.error == OutsideClosure
    ensures r.Success? ==> r.value == EntryOperations(md, internal, p, p.dependencies)
  {
    hide ActiveTarget, EntryOperations;
    var ops: seq<Operation> := [];
    assert p.dependencies[0..] == p.dependencies;
    for i := 0 to |p.dependencies|
      invariant forall j :: 0 <= j < i ==> !LeavesClosure(md, internal, p.id, p.dependencies[j])
      invariant ops + EntryOperations(md, internal, p, p.dependencies[i..])
             == EntryOperations(md, internal, p, p.dependencies)
    {
      var d := p.dependencies[i];
      EntryOperationsStep(md, internal, p, i, ops);
      var target := ActiveTarget(md, p.id, d);
      if target.None? {
        continue;
      }
      if target.value.id !in internal {
        assert LeavesClosure(md, internal, p.id, d);
        return Failure(OutsideClosure);
      }
      var expected := ExactVersion(target.value);
      if d.req != expected {
        ops := ops + [SetPathVersion(p.manifest.value, p.name, d.name, expected)];
      }
    }
    EntryOperationsEnd(md, internal, p, ops);
    return Success(ops);
  }

  lemma EntryOperationsStep(md: Metadata, internal: set<string>, p: Package, i: nat, before: seq<Operation>)
    requires p.manifest.Some? && i < |p.dependencies|
    ensures var d, rest := p.dependencies[i], EntryOperations(md, internal, p, p.dependencies[i + 1..]);
            before + EntryOperations(md, internal, p, p.dependencies[i..])
            == if NeedsVersion(md, internal, p.id, d) then before + [VersionOperation(md, internal, p, d)] + rest
               else before + rest
  {
    hide NeedsVersion, VersionOperation;
    assert p.dependencies[i..][1..] == p.dependencies[i + 1..];
  }

  lemma EntryOperationsEnd(md: Metadata, internal: set<string>, p: Package, ops: seq<Operation>)
    requires p.manifest.Some?
    ensures ops + EntryOperations(md, internal, p, p.dependencies[|p.dependencies|..]) == ops
  {
  }

  lemma FoundIs(md: Metadata, p: Package)
    requires Consistent(md) && p in md.packages
    ensures Find(md.packages, p.id) == Some(p)
  {
  }

  ghost predicate LeavesFrom(md: Metadata, internal: set<string>, members: set<string>) {
    exists p, d :: p in md.packages && p.id in members && d in p.dependencies && LeavesClosure(md, internal, p.id, d)
  }

  /** The loop over the internal packages, in any order. */
  method PlanInternal(md: Metadata, internal: set<string>) returns (r: Result<seq<Operation>, Error>)
    requires Consistent(md)
    requires forall id :: id in internal ==> Find(md.packages, id).Some? && Find(md.packages, id).value.manifest.Some?
    ensures r.Failure? <==> SomeLeavesClosure(md, internal)
    ensures r.Failure? ==> r.error == OutsideClosure
    ensures r.Success? ==> Gathers(md, internal, internal, r.value)
  {
    hide LeavesClosure, Gathers, EntryOperations, Consistent;
    var ops: seq<Operation> := [];
    var remaining := internal;
    GathersNothing(md, internal);
    assert internal - remaining == {};
    while remaining != {}
      invariant remaining <= internal
      invariant !LeavesFrom(md, internal, internal - remaining)
      invariant Gathers(md, internal, internal - remaining, ops)
      decreases remaining
    {
      var id :| id in remaining;
      var p := Find(md.packages, id).value;
      var later := PlanPackage(md, internal, p);
      if later.Failure? {
        assert SomeLeavesClosure(md, internal);
        return later;
      }
      var mine := later.value;
      if p.publish.Some? {
        mine := mine + [SetPublish(p.manifest.value, p.name, true)];
      } else {
        assert mine + [] == mine;
      }
      ghost var done := internal - remaining;
      GathersOne(md, internal, p);
      GathersBoth(md, internal, done, {id}, ops, mine);
      StillInside(md, internal, done, p);
      remaining := remaining - {id};
      assert internal - remaining == done + {id};
      ops := ops + mine;
    }
    assert internal - remaining == internal;
    return Success(ops);
  }

  lemma StillInside(md: Metadata, internal: set<string>, members: set<string>, p: Package)
    requires Consistent(md) && p in md.packages && !LeavesFrom(md, internal, members)
    requires forall d :: d in p.dependencies ==> !LeavesClosure(md, internal, p.id, d)
    ensures !LeavesFrom(md, internal, members + {p.id})
  {
    hide LeavesClosure;
  }

  /** The loop over the other workspace members, in any order. */
  method PlanOutside(md: Metadata, internal: set<string>) returns (r: Result<seq<Operation>, Error>)
    requires Consistent(md)
    ensures r.Failure? <==> SomeOutsideRoot(md, internal)
    ensures r.Failure? ==> r.error == OutsideRoot
    ensures r.Success? ==> Gathers(md, internal, md.workspace - internal, r.value)
  {
    hide Gathers;
    var ops: seq<Operation> := [];
    var all := md.workspace - internal;
    var remaining := all;
    GathersNothing(md, internal);
    assert all - remaining == {};
    while remaining != {}
      invariant remaining <= all
      invariant forall p :: p in md.packages && p.id in all - remaining && p.publish.None? ==> p.manifest.Some?
      invariant Gathers(md, internal, all - remaining, ops)
      decreases remaining
    {
      var id :| id in remaining;
      var p := Find(md.packages, id).value;
      var mine: seq<Operation> := [];
      if p.publish.None? {
        if p.manifest.None? {
          return Failure(OutsideRoot);
        }
        mine := [SetPublish(p.manifest.value, p.name, false)];
      }
      ghost var done := all - remaining;
      assert mine == OperationsFor(md, internal, p);
      GathersOne(md, internal, p);
      GathersBoth(md, internal, done, {id}, ops, mine);
      remaining := remaining - {id};
      assert all - remaining == done + {id};
      ops := ops + mine;
    }
    assert all - remaining == all;
    return Success(ops);
  }

  method BuildPlan(md: Metadata, names: seq<string>) returns (r: Result<Plan, Error>)
    requires Consistent(md)
    ensures r.Success? ==> IsPlan(md, names, r.value)
    ensures r.Failure? ==> PlanFails(md, names, r.error)
  {
    hide IsClosure, Reachable, Gathers, Sorted, MissingRoot, SomeLeavesClosure, SomeOutsideRoot;
    if MissingRoot(md.packages, names) {
      return Failure(MissingRoots);
    }
    var closure :- ShippedClosure(md, RootIds(md.packages, names));
    assert HasClosure(md, names, closure);
    var internal := Internal(md, closure);
    var first :- PlanInternal(md, internal);
    var second :- PlanOutside(md, internal);
    var operations := SortOperations(first + second);
    GathersBoth(md, internal, internal, md.workspace - internal, first, second);
    assert internal + (md.workspace - internal) == md.workspace;
    GathersSorted(md, internal, md.workspace, first + second);
    SortOperationsMeans(first + second);
    return Success(Plan(closure, internal, operations));
  }

  // ----- What a plan holds

  /** A plan holds exactly the operations the metadata call for. */
  lemma PlanHoldsExactly(md: Metadata, names: seq<string>, plan: Plan, op: Operation)
    requires Consistent(md) && IsPlan(md, names, plan)
    ensures op in plan.operations <==> InPlan(md, plan.internal, op)
  {
    hide IsClosure, Sorted, MissingRoot, SomeLeavesClosure, SomeOutsideRoot, Internal, InternalOp, ExternalOp,
        OperationsFor, WithKey, Find, SameKey;
    var ops, internal := plan.operations, plan.internal;
    WithKeyHolds(ops, op);
    KeyOfItself(op);
    if op in ops {
      var p :| p in md.packages && p.id in md.workspace && p.manifest == Some(op.manifest);
      WithKeyHolds(OperationsFor(md, internal, p), op);
      OperationsForMeans(md, internal, p);
    }
    if InPlan(md, internal, op) {
      var p :| InternalOp(md, internal, p, op) || ExternalOp(md, internal, p, op);
      OpManifest(md, internal, p, op);
      OpInWorkspace(md, plan.closure, p, op);
      WithKeyHolds(OperationsFor(md, internal, p), op);
      OperationsForMeans(md, internal, p);
    }
  }

  lemma KeyOfItself(op: Operation)
    ensures SameKey(op, op)
  {
  }

  lemma OpInWorkspace(md: Metadata, closure: set<string>, p: Package, op: Operation)
    requires InternalOp(md, Internal(md, closure), p, op) || ExternalOp(md, Internal(md, closure), p, op)
    ensures p.id in md.workspace
  {
    hide IsDependencyOp;
  }

  /** Whatever order the sets were walked in, the same metadata give the same plan. */
  lemma PlanIsDetermined(md: Metadata, names: seq<string>, a: Plan, b: Plan)
    requires Consistent(md) && IsPlan(md, names, a) && IsPlan(md, names, b)
    ensures a == b
  {
    hide Internal, IsClosure, Gathers, Sorted, WithKey, Consistent;
    ClosureUnique(md, RootIds(md.packages, names), a.closure, b.closure);
    GathersSame(md, a.internal, md.workspace, a.operations, b.operations);
    SortedUnique(a.operations, b.operations);
  }

  lemma GathersSame(md: Metadata, internal: set<string>, members: set<string>, a: seq<Operation>, b: seq<Operation>)
    requires Gathers(md, internal, members, a) && Gathers(md, internal, members, b)
    ensures forall key :: WithKey(a, key) == WithKey(b, key)
  {
    hide OperationsFor, WithKey;
    forall key
      ensures WithKey(a, key) == WithKey(b, key)
    {
      if p :| p in md.packages && p.id in members && p.manifest == Some(key.manifest) {
      } else {
        NoneWithKey(a, key);
        NoneWithKey(b, key);
      }
    }
  }
}
