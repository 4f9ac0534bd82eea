/**
 Selecting the packages a release contains: a worklist over the resolved dependency graph that
 follows every dependency needed for more than development.
 */
module ReleaseClosure {
  import Text

  type PackageId = string

  datatype Kind = Normal | Build | Dev

  datatype Dependency = Dependency(pkg: PackageId, kinds: seq<Kind>)

  datatype Package = Package(id: PackageId, isRoot: bool)

  /** `cargo metadata`: the packages, and the resolved dependencies of each node. */
  datatype Metadata = Metadata(packages: seq<Package>, nodes: map<PackageId, seq<Dependency>>)

  datatype Result = Selected(ids: set<PackageId>) | NotOneRoot | UnknownNode(id: PackageId)

  /** A dictionary keeps the last package listed under an id. */
  function ById(packages: seq<Package>): map<PackageId, Package> {
    if packages == [] then map[]
    else ById(packages[..|packages| - 1])[packages[|packages| - 1].id := packages[|packages| - 1]]
  }

  function Roots(m: Metadata): set<PackageId> {
    set id | id in ById(m.packages) && ById(m.packages)[id].isRoot
  }

  predicate Needed(d: Dependency) {
    exists i | 0 <= i < |d.kinds| :: !d.kinds[i].Dev?
  }

  /** `b` is a dependency of `a` with some kind that is normal or build. */
  predicate Edge(m: Metadata, a: PackageId, b: PackageId) {
    a in m.nodes
    && exists d | d in m.nodes[a] :: d.pkg == b && (Normal in d.kinds || Build in d.kinds)
  }

  lemma NeededExactly(d: Dependency)
    ensures Needed(d) <==> Normal in d.kinds || Build in d.kinds
  {
    if Needed(d) {
      var i :| 0 <= i < |d.kinds| && !d.kinds[i].Dev?;
      assert d.kinds[i] == Normal || d.kinds[i] == Build;
    }
  }

  /** A package is a root exactly when the last one listed under its id is. */
  lemma {:induction false} RootsExactly(m: Metadata, id: PackageId)
    ensures id in Roots(m) <==>
            exists i | 0 <= i < |m.packages| ::
              m.packages[i] == Package(id, true) && forall j | i < j < |m.packages| :: m.packages[j].id != id
    decreases |m.packages|
  {
    if m.packages != [] {
      var n := |m.packages| - 1;
      var shorter := m.(packages := m.packages[..n]);
      RootsExactly(shorter, id);
      if m.packages[n].id == id {
        assert id in Roots(m) <==> m.packages[n] == Package(id, true);
      } else {
        assert id in Roots(m) <==> id in Roots(shorter);
        assert forall i | 0 <= i < n :: shorter.packages[i] == m.packages[i];
      }
    }
  }

  ghost predicate Path(m: Metadata, p: seq<PackageId>) {
    p != [] && forall i | 0 <= i < |p| - 1 :: Edge(m, p[i], p[i + 1])
  }

  ghost predicate Reaches(m: Metadata, root: PackageId, b: PackageId) {
    exists p :: Path(m, p) && p[0] == root && p[|p| - 1] == b
  }

  lemma ReachesSelf(m: Metadata, root: PackageId)
    ensures Reaches(m, root, root)
  {
    assert Path(m, [root]);
  }

  lemma ReachesOn(m: Metadata, root: PackageId, a: PackageId, b: PackageId)
    requires Reaches(m, root, a) && Edge(m, a, b)
    ensures Reaches(m, root, b)
  {
    var p :| Path(m, p) && p[0] == root && p[|p| - 1] == a;
    assert Path(m, p + [b]);
  }

  /** A set that has the root and is closed under edges has all a path can lead to. */
  lemma {:induction false} ClosedHasPath(m: Metadata, closed: set<PackageId>, p: seq<PackageId>)
    requires Path(m, p) && p[0] in closed
    requires forall a, b | a in closed && Edge(m, a, b) :: b in closed
    ensures p[|p| - 1] in closed
  {
    if |p| > 1 {
      var q := p[..|p| - 1];
      assert Path(m, q) by {
        forall i | 0 <= i < |q| - 1 ensures Edge(m, q[i], q[i + 1]) {
          assert Edge(m, p[i], p[i + 1]);
        }
      }
      ClosedHasPath(m, closed, q);
      assert Edge(m, p[|p| - 2], p[|p| - 1]);
    }
  }

  /** Every edge out of a selected package leads to a selected or pending one. */
  ghost predicate Frontier(m: Metadata, selected: set<PackageId>, pending: seq<PackageId>) {
    forall a, b | a in selected && Edge(m, a, b) :: b in selected || b in pending
  }

  ghost predicate AllReached(m: Metadata, root: PackageId, ids: set<PackageId>, pending: seq<PackageId>) {
    forall b | b in ids || b in pending :: Reaches(m, root, b)
  }

  /** Taking `id` off the list and adding its needed dependencies keeps the frontier. */
  lemma FrontierStep(m: Metadata, selected: set<PackageId>, rest: seq<PackageId>, id: PackageId, next: seq<PackageId>)
    requires Frontier(m, selected, rest + [id])
    requires forall b :: b in next <==> b in rest || Edge(m, id, b)
    ensures Frontier(m, selected + {id}, next)
  {
    forall a, b | a in selected + {id} && Edge(m, a, b) ensures b in selected + {id} || b in next {
      if a in selected {
        assert b in selected || b in rest + [id];
      }
    }
  }

  lemma ClosedIsReach(m: Metadata, root: PackageId, selected: set<PackageId>)
    requires root in selected && Frontier(m, selected, []) && AllReached(m, root, selected, [])
    ensures forall b :: b in selected <==> Reaches(m, root, b)
  {
    forall b ensures b in selected <==> Reaches(m, root, b) {
      if Reaches(m, root, b) {
        var p :| Path(m, p) && p[0] == root && p[|p| - 1] == b;
        ClosedHasPath(m, selected, p);
      }
    }
  }

  /** The worklist terminates on every graph, cycles included. It selects exactly the packages the
      root reaches; it fails with a key error only on one of those that has no node. */
  method Closure(m: Metadata, root: PackageId) returns (r: Result)
    ensures !r.NotOneRoot?
    ensures r.Selected? ==> r.ids <= m.nodes.Keys && forall b :: b in r.ids <==> Reaches(m, root, b)
    ensures r.UnknownNode? ==> r.id !in m.nodes && Reaches(m, root, r.id)
  {
    var pending := [root];
    var selected: set<PackageId> := {};
    ReachesSelf(m, root);
    while pending != []
      invariant selected <= m.nodes.Keys
      invariant root in selected || root in pending
      invariant AllReached(m, root, selected, pending)
      invariant Frontier(m, selected, pending)
      decreases |m.nodes.Keys - selected|, |pending|
    {
      var id := pending[|pending| - 1];
      var rest := pending[..|pending| - 1];
      assert pending == rest + [id];
      if id in selected {
        pending := rest;
        continue;
      }
      if id !in m.nodes {
        return UnknownNode(id);
      }
      Text.SubsetCardinality(m.nodes.Keys - (selected + {id}), m.nodes.Keys - selected);
      pending := AddNeeded(m, root, id, rest);
      FrontierStep(m, selected, rest, id, pending);
      selected := selected + {id};
    }
    ClosedIsReach(m, root, selected);
    return Selected(selected);
  }

  method ReleaseDependencyIds(m: Metadata) returns (r: Result)
    ensures r.NotOneRoot? <==> |Roots(m)| != 1
    ensures r.Selected? ==> r.ids <= m.nodes.Keys
    ensures r.Selected? ==>
              exists root :: Roots(m) == {root} && forall b :: b in r.ids <==> Reaches(m, root, b)
    ensures r.UnknownNode? ==> r.id !in m.nodes && exists root :: Roots(m) == {root} && Reaches(m, root, r.id)
  {
    var roots := Roots(m);
    if |roots| != 1 {
      return NotOneRoot;
    }
    var root :| root in roots;
    OnlyMember(roots, root);
    r := Closure(m, root);
  }

  /** The inner loop: every needed dependency of `id` is appended. */
  method AddNeeded(m: Metadata, ghost root: PackageId, id: PackageId, before: seq<PackageId>)
    returns (pending: seq<PackageId>)
    requires id in m.nodes && Reaches(m, root, id)
    ensures before <= pending
    ensures forall b :: b in pending <==> b in before || Edge(m, id, b)
    ensures forall b | b in pending && b !in before :: Reaches(m, root, b)
  {
    pending := before;
    var deps := m.nodes[id];
    for i := 0 to |deps|
      invariant before <= pending
      invariant forall b :: b in pending <==>
                  b in before || exists j | 0 <= j < i :: deps[j].pkg == b && Needed(deps[j])
    {
      if Needed(deps[i]) {
        pending := pending + [deps[i].pkg];
      }
    }
    forall b | b in pending && b !in before ensures Reaches(m, root, b) {
      ReachesOn(m, root, id, b);
    }
  }

  lemma OnlyMember<T>(s: set<T>, x: T)
    requires |s| == 1 && x in s
    ensures s == {x}
  {
    assert |s - {x}| == 0;
  }
}
