/**
 A path dependency that a manifest lists twice. For the library and the build script planning never satisfies the
 auditor, and applying stops if the manifest has a table for each entry; for the library and the tests one round does.
 */
module PublishListedTwice {
  import opened Wrappers
  import opened PublishGraph
  import opened PublishPlan
  import opened PublishAudit
  import opened PublishApply

  const LIB := Package("l", "lib", "1.0.0", None, "/lib", Some("lib/Cargo.toml"), [], [])

  /** A package whose library and whose build script or tests use the same path dependency. */
  function App(kind: Kind, normal: string, second: string, lines: seq<Line>): Package {
    Package("a", "app", "1.0.0", None, "/app", Some("app/Cargo.toml"),
            [Dependency("lib", Normal, Some("/lib"), normal), Dependency("lib", kind, Some("/lib"), second)],
            lines)
  }

  function ListedTwice(kind: Kind, normal: string, second: string, lines: seq<Line>): Metadata {
    Metadata([App(kind, normal, second, lines), LIB], map["a" := [Edge("l", [Normal, kind])], "l" := []], {"a", "l"})
  }

  lemma TwiceLookups(md: Metadata, kind: Kind, normal: string, second: string, lines: seq<Line>)
    requires md == ListedTwice(kind, normal, second, lines)
    ensures Find(md.packages, "a") == Some(App(kind, normal, second, lines)) && Find(md.packages, "l") == Some(LIB)
    ensures PathTarget(md.packages, "/lib") == Some(LIB)
    ensures RootIds(md.packages, ["app"]) == ["a"] && !MissingRoot(md.packages, ["app"])
  {
    var rest := md.packages[1..];
    assert rest == [LIB] && rest[1..] == [];
    assert "a" != "l" && md.packages[0].dir[1] == 'a' && LIB.dir[1] == 'l';
    assert "lib" != "app";
    assert RootIds(rest, ["app"]) == [];
    assert HasName(md.packages, "app") by {
      assert md.packages[0].name == "app";
    }
  }

  lemma TwiceTargets(md: Metadata, kind: Kind, normal: string, second: string, lines: seq<Line>)
    requires md == ListedTwice(kind, normal, second, lines)
    ensures Targets(md, "a") == ["l"] && forall id :: id != "a" ==> Targets(md, id) == []
  {
    assert "a" != "l";
    var edges := [Edge("l", [Normal, kind])];
    assert md.nodes["a"] == edges;
    assert edges[1..] == [];
    assert edges[0].kinds[0] == Normal;
    assert Normal in edges[0].kinds && Normal != Dev;
    assert NormalOrBuild(edges[0].kinds);
    assert ShippedTargets(edges) == ["l"] + ShippedTargets(edges[1..]);
  }

  lemma TwiceClosure(md: Metadata, kind: Kind, normal: string, second: string, lines: seq<Line>)
    requires md == ListedTwice(kind, normal, second, lines)
    ensures HasClosure(md, ["app"], {"a", "l"}) && Internal(md, {"a", "l"}) == {"a", "l"} && Consistent(md)
  {
    hide Targets, Reachable, MissingRoot, RootIds, Find, ShippedTargets;
    TwiceLookups(md, kind, normal, second, lines);
    TwiceTargets(md, kind, normal, second, lines);
    RootReachable(md, ["a"], "a");
    StepReachable(md, ["a"], "a", "l");
    forall id | Reachable(md, ["a"], id)
      ensures id in {"a", "l"}
    {
      InClosed(md, ["a"], {"a", "l"}, id);
    }
    assert md.packages[0].manifest.value[0] == 'a' && md.packages[1].manifest.value[0] == 'l';
    assert "a"[0] == 'a' && "l"[0] == 'l';
  }

  lemma TwiceNeeds(md: Metadata, kind: Kind, normal: string, second: string, lines: seq<Line>, d: Dependency)
    requires md == ListedTwice(kind, normal, second, lines) && d in App(kind, normal, second, lines).dependencies
    ensures ActiveTarget(md, "a", d) == (if d.kind == Dev then None else Some(LIB)) && ExactVersion(LIB) == "=1.0.0"
    ensures !LeavesClosure(md, {"a", "l"}, "a", d)
    ensures NeedsVersion(md, {"a", "l"}, "a", d) <==> d.kind != Dev && d.req != "=1.0.0"
  {
    hide Targets, PathTarget;
    TwiceLookups(md, kind, normal, second, lines);
    TwiceTargets(md, kind, normal, second, lines);
    assert "=" + "1.0.0" == "=1.0.0";
  }

  /** Both entries as inline tables, in the order of the metadata. */
  const INLINE: seq<Line> := [Line("lib", Some(0)), Line("lib", Some(1))]

  /**
   With both entries unversioned inline tables the plan edits the same entry twice, and the auditor still reports the
   other one: no number of rounds mends it.
   */
  lemma NormalAndBuildEntry()
    ensures var md, after := ListedTwice(Build, "*", "*", INLINE), ListedTwice(Build, "=1.0.0", "*", INLINE);
            var op := SetPathVersion("app/Cargo.toml", "app", "lib", "=1.0.0");
            && IsPlan(md, ["app"], Plan({"a", "l"}, {"a", "l"}, [op, op]))
            && LeftBehind(md, [op, op]) == after == LeftBehind(after, [op])
            && IsReport(after, ["app"],
                        Report({"a", "l"}, {"a", "l"}, [WrongVersion("a", "lib", "lib", "*", "=1.0.0")]))
            && IsPlan(after, ["app"], Plan({"a", "l"}, {"a", "l"}, [op]))
  {
    hide IsPlan, IsReport, Applied, Finds;
    var op := SetPathVersion("app/Cargo.toml", "app", "lib", "=1.0.0");
    TwicePlan(Build, "*", "*", INLINE);
    TwicePlan(Build, "=1.0.0", "*", INLINE);
    assert TwiceOps(Build, "*", "*") == [op, op] && TwiceOps(Build, "=1.0.0", "*") == [op];
    assert TwiceWrongs(Build, "=1.0.0", "*") == [WrongVersion("a", "lib", "lib", "*", "=1.0.0")];
    TwiceReport(Build, "=1.0.0", "*", INLINE);
    TwiceApplied(Build, "*");
    TwiceApplied(Build, "=1.0.0");
    TwiceFound(Build, "*", [op, op]);
    TwiceFound(Build, "=1.0.0", [op]);
    assert [op, op][..2] == [op, op] && [op][..1] == [op];
    assert [op, op][1..] == [op] && [op][1..] == [];
  }

  /**
   With a normal and a dev entry instead, as in `crates/core/vaco-core/Cargo.toml`, the plan sets the version of the
   normal entry once, the auditor reports that entry alone, and one round mends it: the dev entry stays as it is.
   */
  lemma NormalAndDevEntry()
    ensures var md, after := ListedTwice(Dev, "*", "*", INLINE), ListedTwice(Dev, "=1.0.0", "*", INLINE);
            var op := SetPathVersion("app/Cargo.toml", "app", "lib", "=1.0.0");
            && IsPlan(md, ["app"], Plan({"a", "l"}, {"a", "l"}, [op]))
            && IsReport(md, ["app"],
                        Report({"a", "l"}, {"a", "l"}, [WrongVersion("a", "lib", "lib", "*", "=1.0.0")]))
            && LeftBehind(md, [op]) == after
            && IsReport(after, ["app"], Report({"a", "l"}, {"a", "l"}, []))
            && IsPlan(after, ["app"], Plan({"a", "l"}, {"a", "l"}, []))
  {
    hide IsPlan, IsReport, Applied, Finds;
    var op := SetPathVersion("app/Cargo.toml", "app", "lib", "=1.0.0");
    var wrong := WrongVersion("a", "lib", "lib", "*", "=1.0.0");
    TwicePlan(Dev, "*", "*", INLINE);
    TwicePlan(Dev, "=1.0.0", "*", INLINE);
    TwiceReport(Dev, "*", "*", INLINE);
    TwiceReport(Dev, "=1.0.0", "*", INLINE);
    assert TwiceOps(Dev, "*", "*") == [op] && TwiceOps(Dev, "=1.0.0", "*") == [];
    assert TwiceWrongs(Dev, "*", "*") == [wrong] && TwiceWrongs(Dev, "=1.0.0", "*") == [];
    TwiceApplied(Dev, "*");
    TwiceFound(Dev, "*", [op]);
    assert [op][..1] == [op] && [op][1..] == [];
  }

  lemma TwiceFound(kind: Kind, normal: string, ops: seq<Operation>)
    requires forall op :: op in ops ==> op == SetPathVersion("app/Cargo.toml", "app", "lib", "=1.0.0")
    ensures Steps(ListedTwice(kind, normal, "*", INLINE), ops) == |ops|
  {
    var md := ListedTwice(kind, normal, "*", INLINE);
    assert md.packages[0] in md.packages && FirstLine(INLINE, "lib") == Some(INLINE[0]);
    AllSteps(md, ops);
  }

  /**
   With a table for each entry the manifest has no line to edit: applying stops at the first operation with nothing
   changed, and the auditor reports both entries.
   */
  lemma TableEntries()
    ensures var md := ListedTwice(Build, "*", "*", []);
            var op := SetPathVersion("app/Cargo.toml", "app", "lib", "=1.0.0");
            var wrong := WrongVersion("a", "lib", "lib", "*", "=1.0.0");
            && IsPlan(md, ["app"], Plan({"a", "l"}, {"a", "l"}, [op, op]))
            && !Finds(md, op) && LeftBehind(md, [op, op]) == md
            && IsReport(md, ["app"], Report({"a", "l"}, {"a", "l"}, [wrong, wrong]))
  {
    hide IsPlan, IsReport, Applied;
    var md := ListedTwice(Build, "*", "*", []);
    var op := SetPathVersion("app/Cargo.toml", "app", "lib", "=1.0.0");
    var wrong := WrongVersion("a", "lib", "lib", "*", "=1.0.0");
    TwicePlan(Build, "*", "*", []);
    TwiceReport(Build, "*", "*", []);
    assert TwiceOps(Build, "*", "*") == [op, op] && TwiceWrongs(Build, "*", "*") == [wrong, wrong];
    assert FirstLine([], "lib").None?;
    assert op.manifest[0] == 'a' && LIB.manifest.value[0] == 'l';
    assert [op, op][..0] == [];
    NothingApplied(md);
  }

  /** One operation for each of the two entries that has another requirement. */
  function TwiceOps(kind: Kind, normal: string, second: string): seq<Operation> {
    var op := SetPathVersion("app/Cargo.toml", "app", "lib", "=1.0.0");
    (if normal != "=1.0.0" then [op] else []) + (if kind != Dev && second != "=1.0.0" then [op] else [])
  }

  lemma TwicePlan(kind: Kind, normal: string, second: string, lines: seq<Line>)
    ensures IsPlan(ListedTwice(kind, normal, second, lines), ["app"],
                   Plan({"a", "l"}, {"a", "l"}, TwiceOps(kind, normal, second)))
  {
    hide HasClosure, Gathers, Find, Internal, NeedsVersion, ActiveTarget, OperationsFor, MissingRoot, IsClosure;
    var md, internal := ListedTwice(kind, normal, second, lines), {"a", "l"};
    var app, ops := App(kind, normal, second, lines), TwiceOps(kind, normal, second);
    TwiceClosure(md, kind, normal, second, lines);
    TwiceOperations(md, kind, normal, second, lines);
    GathersOne(md, internal, app);
    GathersOne(md, internal, LIB);
    GathersBoth(md, internal, {"a"}, {"l"}, ops, []);
    assert {"a"} + {"l"} == internal && ops + [] == ops;
    TwiceSorted(kind, normal, second);
    assert HasClosure(md, ["app"], internal);
    TwicePlanFrom(md, internal, ops);
  }

  lemma TwicePlanFrom(md: Metadata, all: set<string>, ops: seq<Operation>)
    requires HasClosure(md, ["app"], all) && Internal(md, all) == all == md.workspace && Sorted(ops)
    requires !SomeLeavesClosure(md, all) && !SomeOutsideRoot(md, all) && Gathers(md, all, all, ops)
    ensures IsPlan(md, ["app"], Plan(all, all, ops))
  {
    hide Gathers, Internal, MissingRoot, IsClosure, Sorted, SomeLeavesClosure, SomeOutsideRoot;
  }

  lemma TwiceSorted(kind: Kind, normal: string, second: string)
    ensures Sorted(TwiceOps(kind, normal, second))
  {
    hide KeyLeq;
    var op := SetPathVersion("app/Cargo.toml", "app", "lib", "=1.0.0");
    KeyLeqTotal(op, op);
  }

  lemma TwiceOperations(md: Metadata, kind: Kind, normal: string, second: string, lines: seq<Line>)
    requires md == ListedTwice(kind, normal, second, lines)
    ensures OperationsFor(md, {"a", "l"}, LIB) == []
    ensures OperationsFor(md, {"a", "l"}, App(kind, normal, second, lines)) == TwiceOps(kind, normal, second)
    ensures !SomeLeavesClosure(md, {"a", "l"}) && !SomeOutsideRoot(md, {"a", "l"})
  {
    hide NeedsVersion, ActiveTarget, LeavesClosure, Find;
    var app, internal := App(kind, normal, second, lines), {"a", "l"};
    var ds := app.dependencies;
    TwiceNeeds(md, kind, normal, second, lines, ds[0]);
    TwiceNeeds(md, kind, normal, second, lines, ds[1]);
    assert ds[1..] == [ds[1]] && ds[1..][1..] == [];
    assert EntryOperations(md, internal, app, ds[1..]) == TwiceOps(kind, "=1.0.0", second);
    assert EntryOperations(md, internal, app, ds) == TwiceOps(kind, normal, second);
  }

  function TwiceWrongs(kind: Kind, normal: string, second: string): seq<Finding> {
    (if normal != "=1.0.0" then [WrongVersion("a", "lib", "lib", normal, "=1.0.0")] else [])
    + (if kind != Dev && second != "=1.0.0" then [WrongVersion("a", "lib", "lib", second, "=1.0.0")] else [])
  }

  lemma TwiceReport(kind: Kind, normal: string, second: string, lines: seq<Line>)
    ensures IsReport(ListedTwice(kind, normal, second, lines), ["app"],
                     Report({"a", "l"}, {"a", "l"}, TwiceWrongs(kind, normal, second)))
  {
    hide HasClosure, Find, Internal, FindingsFor, ActiveTarget, NotAfter, Covers;
    var md, internal := ListedTwice(kind, normal, second, lines), {"a", "l"};
    var app, wrongs := App(kind, normal, second, lines), TwiceWrongs(kind, normal, second);
    TwiceClosure(md, kind, normal, second, lines);
    TwiceFindings(md, kind, normal, second, lines);
    CoversNothing(md, internal);
    CoversOneMore(md, internal, {}, app, []);
    CoversOneMore(md, internal, {} + {"a"}, LIB, [] + wrongs);
    NotAfterItself(md, internal, "a");
    assert {} + {"a"} + {"l"} == internal && [] + wrongs + [] == wrongs;
  }

  lemma TwiceFindings(md: Metadata, kind: Kind, normal: string, second: string, lines: seq<Line>)
    requires md == ListedTwice(kind, normal, second, lines)
    ensures FindingsFor(md, {"a", "l"}, App(kind, normal, second, lines)) == TwiceWrongs(kind, normal, second)
    ensures FindingsFor(md, {"a", "l"}, LIB) == []
  {
    hide ActiveTarget;
    var app, internal := App(kind, normal, second, lines), {"a", "l"};
    var ds := app.dependencies;
    TwiceNeeds(md, kind, normal, second, lines, ds[0]);
    TwiceNeeds(md, kind, normal, second, lines, ds[1]);
    assert ds[1..] == [ds[1]] && ds[1..][1..] == [];
    assert EntryFindings(md, internal, app, ds[1..]) == TwiceWrongs(kind, "=1.0.0", second);
    assert EntryFindings(md, internal, app, ds) == TwiceWrongs(kind, normal, second);
  }

  lemma TwiceApplied(kind: Kind, normal: string)
    ensures var op := SetPathVersion("app/Cargo.toml", "app", "lib", "=1.0.0");
            Applied(ListedTwice(kind, normal, "*", INLINE), op) == ListedTwice(kind, "=1.0.0", "*", INLINE)
  {
    var op := SetPathVersion("app/Cargo.toml", "app", "lib", "=1.0.0");
    var md := Applied(ListedTwice(kind, normal, "*", INLINE), op);
    assert op.manifest[0] == 'a' && LIB.manifest.value[0] == 'l';
    var app, after := App(kind, normal, "*", INLINE), App(kind, "=1.0.0", "*", INLINE);
    assert EditedEntry(app, "lib") == Some(0);
    assert SetVersion(app, "lib", "=1.0.0").dependencies == after.dependencies;
    assert md.packages[0] == after && md.packages[1] == LIB;
    assert md.packages == ListedTwice(kind, "=1.0.0", "*", INLINE).packages;
  }
}
