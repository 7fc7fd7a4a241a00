/** The declarative dependency resolver of marketplace/dependency.py: recursive depth-first
    search over the required dependencies with a visiting and a visited set. */
module DependencyResolver {
  import opened Graphs
  import opened Chains
  import opened DepthFirst

  datatype Dependency = Dependency(packageId: Id, required: bool)

  datatype Package = Package(packageId: Id, dependencies: seq<Dependency>)

  type Registry = map<Id, Package>

  datatype Resolution = Resolved(packages: seq<Package>) | Unresolved(failure: Failure)

  datatype Construction = Built(registry: Registry) | DuplicateIds

  function Required(dependencies: seq<Dependency>): (r: seq<Id>)
    ensures forall b :: b in r <==> exists k :: 0 <= k < |dependencies| && dependencies[k] == Dependency(b, true)
  {
    if dependencies == [] then []
    else
      var rest := Required(dependencies[1..]);
      assert dependencies == [dependencies[0]] + dependencies[1..];
      if dependencies[0].required then [dependencies[0].packageId] + rest else rest
  }

  /** The graph of required dependencies. */
  function RequiredGraph(registry: Registry): (g: Graph)
    ensures g.Keys == registry.Keys
  {
    map p | p in registry :: Required(registry[p].dependencies)
  }

  function RequiredEdges(registry: Registry): Edges {
    EdgesOf(RequiredGraph(registry))
  }

  ghost predicate WellKeyed(registry: Registry) {
    forall p :: p in registry ==> registry[p].packageId == p
  }

  function Ids(packages: seq<Package>): (r: seq<Id>)
    ensures |r| == |packages|
    ensures forall k :: 0 <= k < |r| ==> r[k] == packages[k].packageId
  {
    seq(|packages|, k requires 0 <= k < |packages| => packages[k].packageId)
  }

  /** Building the dictionary of descriptors; duplicate ids are rejected. */
  method Build(descriptors: seq<Package>) returns (r: Construction)
    ensures r.Built? <==> Distinct(Ids(descriptors))
    ensures r.Built? ==> WellKeyed(r.registry) && r.registry.Keys == Elements(Ids(descriptors))
    ensures r.Built? ==> forall p :: p in r.registry ==> r.registry[p] in descriptors
  {
    var registry: Registry := map[];
    ghost var ids := Ids(descriptors);
    for k := 0 to |descriptors|
      invariant WellKeyed(registry) && registry.Keys == Elements(ids[..k])
      invariant forall p :: p in registry ==> registry[p] in descriptors
    {
      assert ids[..k + 1] == ids[..k] + [ids[k]];
      registry := registry[descriptors[k].packageId := descriptors[k]];
    }
    assert ids[..|descriptors|] == ids;
    DistinctIff(ids);
    assert |registry| == |registry.Keys|;
    r := if |registry| != |descriptors| then DuplicateIds else Built(registry);
  }

  lemma Descend(registry: Registry, root: Id, path: seq<Id>, n: Id, k: nat)
    requires n in registry && k < |registry[n].dependencies| && registry[n].dependencies[k].required
    ensures Follows(RequiredGraph(registry), root, path + [n], registry[n].dependencies[k].packageId)
  {
    var d := registry[n].dependencies[k];
    assert d == Dependency(d.packageId, true);
  }

  lemma AllRequiredDone(registry: Registry, n: Id, done: seq<Id>)
    requires n in registry
    requires forall k :: 0 <= k < |registry[n].dependencies| && registry[n].dependencies[k].required ==>
               registry[n].dependencies[k].packageId in done
    ensures forall d :: d in RequiredGraph(registry)[n] ==> d in done
  {}

  /** The resolved packages are those named by the finished identifiers. */
  ghost predicate Packaged(registry: Registry, done: seq<Id>, ordered: seq<Package>) {
    |ordered| == |done| && forall k :: 0 <= k < |done| ==> done[k] in registry && ordered[k] == registry[done[k]]
  }

  lemma PackageNext(registry: Registry, done: seq<Id>, ordered: seq<Package>, n: Id)
    requires Packaged(registry, done, ordered) && n in registry
    ensures Packaged(registry, done + [n], ordered + [registry[n]])
  {}

  class Resolver {
    const registry: Registry
    ghost const root: Id
    var ordered: seq<Package>
    var visiting: set<Id>
    var visited: set<Id>
    ghost var done: seq<Id>
    ghost var path: seq<Id>

    constructor (registry: Registry, ghost root: Id)
      ensures Valid() && this.registry == registry && this.root == root
      ensures done == [] && path == []
    {
      this.registry, this.root := registry, root;
      ordered, visiting, visited, done, path := [], {}, {}, [], [];
    }

    ghost predicate Valid()
      reads this
    {
      && Consistent(RequiredGraph(registry), root, done, path)
      && visiting == Elements(path) && visited == Elements(done)
      && Packaged(registry, done, ordered)
    }

    /** The recursive visit. An exception leaves the shared sets as they are; its caller
        abandons the whole resolution. */
    method Visit(identifier: Id) returns (outcome: Outcome)
      requires Valid() && Follows(RequiredGraph(registry), root, path, identifier)
      modifies this
      ensures outcome.Done? ==> Valid() && path == old(path) && old(done) <= done && identifier in done
      ensures outcome.Done? && identifier !in old(done) ==> done[|done| - 1] == identifier
      ensures outcome.Failed? ==> Justified(RequiredGraph(registry), root, outcome.failure)
      decreases |RequiredGraph(registry)| - |path|
    {
      hide Consistent, Justified, Follows, RequiredGraph, Packaged;
      ghost var outer := path;
      if identifier in visited {
        return Done;
      }
      if identifier in visiting {
        Repeats(RequiredGraph(registry), root, done, path, identifier);
        return Failed(Cyclic(identifier));
      }
      if identifier !in registry {
        Absent(RequiredGraph(registry), root, done, path, identifier);
        return Failed(Missing(identifier));
      }
      Enter(RequiredGraph(registry), root, done, path, identifier);
      var package := registry[identifier];
      visiting, path := visiting + {identifier}, path + [identifier];
      var dependencies := package.dependencies;
      for k := 0 to |dependencies|
        invariant Valid() && path == outer + [identifier] && old(done) <= done
        invariant forall j :: 0 <= j < k && dependencies[j].required ==> dependencies[j].packageId in done
      {
        if dependencies[k].required {
          Descend(registry, root, outer, identifier, k);
          outcome := Visit(dependencies[k].packageId);
          if outcome.Failed? {
            return;
          }
        }
      }
      AllRequiredDone(registry, identifier, done);
      Leave(RequiredGraph(registry), root, done, outer, identifier);
      SetsFollow(done, outer, identifier);
      PackageNext(registry, done, ordered, identifier);
      visiting, path := visiting - {identifier}, outer;
      visited := visited + {identifier};
      ordered, done := ordered + [package], done + [identifier];
      outcome := Done;
    }
  }

  method Resolve(registry: Registry, packageId: Id) returns (r: Resolution)
    requires WellKeyed(registry)
    ensures r.Resolved? <==>
            PresentFrom(RequiredGraph(registry), packageId) && AcyclicFrom(RequiredEdges(registry), packageId)
    ensures r.Resolved? ==>
              && DependenciesFirst(RequiredEdges(registry), Ids(r.packages))
              && (forall n :: n in Ids(r.packages) <==> Reaches(RequiredEdges(registry), packageId, n))
              && r.packages != [] && r.packages[|r.packages| - 1].packageId == packageId
              && forall p :: p in r.packages ==> p.packageId in registry && registry[p.packageId] == p
    ensures r.Unresolved? ==> Justified(RequiredGraph(registry), packageId, r.failure)
  {
    hide Justified;
    var resolver := new Resolver(registry, packageId);
    var outcome := resolver.Visit(packageId);
    match outcome
    case Done =>
      FinishedSound(RequiredGraph(registry), packageId, resolver.done);
      assert Ids(resolver.ordered) == resolver.done;
      r := Resolved(resolver.ordered);
    case Failed(failure) =>
      JustifiedUnsound(RequiredGraph(registry), packageId, failure);
      r := Unresolved(failure);
  }
}
