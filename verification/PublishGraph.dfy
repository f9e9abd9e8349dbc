/** The metadata both publish scripts read, and the closure of shipped dependencies they both compute. */
module PublishGraph {
  import opened Wrappers

  /** `kind` of a dependency or an edge: absent, "build" or "dev". */
  datatype Kind = Normal | Build | Dev

  datatype Dependency = Dependency(name: string, kind: Kind, path: Option<string>, req: string)

  /**
   A line of a manifest that holds an inline table under a key. `entry` is the dependency, counted as in the
   metadata, whose requirement a version in this line sets; None for any other inline table.
   */
  datatype Line = Line(key: string, entry: Option<nat>)

  /**
   A workspace or registry package. `dir` is the resolved directory of its manifest, `manifest` the path of
   the manifest relative to the workspace root, None outside of it; `publish` is None for a publishable package.
   `lines` are the inline tables of the manifest's text, from top to bottom; the other fields are Cargo's metadata.
   */
  datatype Package = Package(id: string, name: string, version: string, publish: Option<seq<string>>,
                             dir: string, manifest: Option<string>, dependencies: seq<Dependency>,
                             lines: seq<Line>)

  datatype Edge = Edge(pkg: string, kinds: seq<Kind>)

  datatype Metadata = Metadata(packages: seq<Package>, nodes: map<string, seq<Edge>>, workspace: set<string>)

  datatype Error = MissingRoots | NoNode | OutsideClosure | OutsideRoot | EntryNotFound

  /** Edges that ship: at least one normal or build use. */
  predicate NormalOrBuild(kinds: seq<Kind>) {
    exists k :: k in kinds && k != Dev
  }

  /** The packages a node depends on by shipped edges. */
  function ShippedTargets(edges: seq<Edge>): (targets: seq<string>)
    ensures forall t :: t in targets <==> exists e :: e in edges && e.pkg == t && NormalOrBuild(e.kinds)
  {
    if edges == [] then []
    else
      assert forall e :: e in edges <==> e == edges[0] || e in edges[1..];
      (if NormalOrBuild(edges[0].kinds) then [edges[0].pkg] else []) + ShippedTargets(edges[1..])
  }

  function Targets(md: Metadata, id: string): seq<string> {
    if id in md.nodes then ShippedTargets(md.nodes[id]) else []
  }

  // ----- Reachability

  ghost predicate IsWalk(md: Metadata, roots: seq<string>, walk: seq<string>) {
    && walk != [] && walk[0] in roots
    && forall i :: 0 < i < |walk| ==> walk[i] in Targets(md, walk[i - 1])
  }

  ghost predicate WalkTo(md: Metadata, roots: seq<string>, walk: seq<string>, id: string) {
    IsWalk(md, roots, walk) && walk[|walk| - 1] == id
  }

  /** A chain of shipped edges leads from a root to the package. */
  ghost predicate Reachable(md: Metadata, roots: seq<string>, id: string) {
    exists walk :: WalkTo(md, roots, walk, id)
  }

  ghost predicate IsClosure(md: Metadata, roots: seq<string>, closure: set<string>) {
    forall id :: id in closure <==> Reachable(md, roots, id)
  }

  lemma RootReachable(md: Metadata, roots: seq<string>, id: string)
    requires id in roots
    ensures Reachable(md, roots, id)
  {
    assert WalkTo(md, roots, [id], id);
  }

  lemma StepReachable(md: Metadata, roots: seq<string>, id: string, t: string)
    requires Reachable(md, roots, id) && t in Targets(md, id)
    ensures Reachable(md, roots, t)
  {
    var walk :| WalkTo(md, roots, walk, id);
    assert WalkTo(md, roots, walk + [t], t);
  }

  /** A set that holds the roots and is closed under shipped edges holds everything reachable. */
  lemma {:induction false} ClosedHoldsWalk(md: Metadata, roots: seq<string>, s: set<string>, walk: seq<string>)
    requires forall r :: r in roots ==> r in s
    requires forall id, t :: id in s && t in Targets(md, id) ==> t in s
    requires IsWalk(md, roots, walk)
    ensures walk[|walk| - 1] in s
    decreases |walk|
  {
    if |walk| > 1 {
      var front := walk[..|walk| - 1];
      forall i | 0 < i < |front|
        ensures front[i] in Targets(md, front[i - 1])
      {
        assert walk[i] in Targets(md, walk[i - 1]);
      }
      ClosedHoldsWalk(md, roots, s, front);
      assert walk[|walk| - 1] in Targets(md, front[|front| - 1]);
    }
  }

  /** The closure is the least set that holds the roots and is closed under shipped edges. */
  lemma ClosureIsLeast(md: Metadata, roots: seq<string>, closure: set<string>, s: set<string>)
    requires IsClosure(md, roots, closure)
    requires forall r :: r in roots ==> r in s
    requires forall id, t :: id in s && t in Targets(md, id) ==> t in s
    ensures closure <= s
    ensures forall r :: r in roots ==> r in closure
    ensures forall id, t :: id in closure && t in Targets(md, id) ==> t in closure
  {
    forall id | id in closure
      ensures id in s
    {
      var walk :| WalkTo(md, roots, walk, id);
      ClosedHoldsWalk(md, roots, s, walk);
    }
    forall r | r in roots
      ensures r in closure
    {
      RootReachable(md, roots, r);
    }
    forall id, t | id in closure && t in Targets(md, id)
      ensures t in closure
    {
      StepReachable(md, roots, id, t);
    }
  }

  /** Two closures of the same roots are the same set. */
  lemma ClosureUnique(md: Metadata, roots: seq<string>, a: set<string>, b: set<string>)
    requires IsClosure(md, roots, a) && IsClosure(md, roots, b)
    ensures a == b
  {
    assert forall id :: id in a <==> id in b;
  }

  /** The worklist: a stack that may hold the same package many times. */
  method ShippedClosure(md: Metadata, roots: seq<string>) returns (r: Result<set<string>, Error>)
    ensures r.Success? ==> IsClosure(md, roots, r.value) && r.value <= md.nodes.Keys
    ensures r.Failure? <==> exists id :: Reachable(md, roots, id) && id !in md.nodes
    ensures r.Failure? ==> r.error == NoNode
  {
    hide Reachable, Targets;
    var closure: set<string> := {};
    var pending := roots;
    forall id | id in roots
      ensures Reachable(md, roots, id)
    {
      RootReachable(md, roots, id);
    }
    while pending != []
      invariant closure <= md.nodes.Keys
      invariant forall id :: id in closure || id in pending ==> Reachable(md, roots, id)
      invariant forall id :: id in roots ==> id in closure || id in pending
      invariant forall id, t :: id in closure && t in Targets(md, id) ==> t in closure || t in pending
      decreases md.nodes.Keys - closure, |pending|
    {
      var id := pending[|pending| - 1];
      ghost var before := pending;
      assert forall x :: x in before <==> x in before[..|before| - 1] || x == id;
      pending := pending[..|pending| - 1];
      if id in closure {
        continue;
      }
      if id !in md.nodes {
        return Failure(NoNode);
      }
      closure := closure + {id};
      var targets := Targets(md, id);
      forall t | t in targets
        ensures Reachable(md, roots, t)
      {
        StepReachable(md, roots, id, t);
      }
      pending := pending + targets;
    }
    forall id | Reachable(md, roots, id)
      ensures id in closure
    {
      InClosed(md, roots, closure, id);
    }
    return Success(closure);
  }

  lemma InClosed(md: Metadata, roots: seq<string>, s: set<string>, id: string)
    requires forall r :: r in roots ==> r in s
    requires forall id, t :: id in s && t in Targets(md, id) ==> t in s
    requires Reachable(md, roots, id)
    ensures id in s
  {
    hide Targets;
    var walk :| WalkTo(md, roots, walk, id);
    ClosedHoldsWalk(md, roots, s, walk);
  }
}
