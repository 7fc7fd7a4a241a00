/** The package store of marketplace/enterprise_store.py: releases, installation with dependency
    checks, upgrade and rollback. */
module Marketplace {
  import opened Wrappers
  import opened Graphs
  import opened Chains
  import opened DepthFirst
  import opened CycleClosing

  datatype Profile = Profile(publisherId: Id, organization: string, displayName: string, verified: bool,
                             owners: seq<Id>, signingKeyId: Option<Id>)

  /** verified and releases are filled in when the release is stored. */
  datatype Release = Release(packageId: Id, publisherId: Id, version: string, dependencies: seq<Id>, downloads: nat,
                             verified: bool, releases: seq<string>)

  /** The releases of one package in publication order. */
  type Versions = seq<Release>

  type Packages = map<Id, Versions>

  datatype Error = PublisherExists | UnknownPublisher | VersionExists | UnknownPackage | UnknownVersion |
    Unresolvable(failure: Failure) | NotInstalledDependencies | NotInstalled | NoRollback

  datatype Result<T> = Success(value: T) | Failure(error: Error)

  datatype Resolution = Order(ids: seq<Id>) | Unresolved(failure: DepthFirst.Failure)

  // ---------- releases ----------

  function Names(versions: Versions): (r: seq<string>)
    ensures |r| == |versions| && forall i :: 0 <= i < |r| ==> r[i] == versions[i].version
  {
    seq(|versions|, i requires 0 <= i < |versions| => versions[i].version)
  }

  /** Every stored release lists the versions up to and including its own. */
  ghost predicate Chronicled(versions: Versions) {
    forall i :: 0 <= i < |versions| ==> versions[i].releases == Names(versions)[..i + 1]
  }

  /** What is stored of a release: its publisher's verification and the versions so far. */
  function Stamped(versions: Versions, release: Release, verified: bool): Release {
    release.(verified := verified, releases := Names(versions) + [release.version])
  }

  lemma ChronicleGrows(versions: Versions, release: Release, verified: bool)
    requires Chronicled(versions)
    ensures Chronicled(versions + [Stamped(versions, release, verified)])
  {
    var after := versions + [Stamped(versions, release, verified)];
    assert Names(after) == Names(versions) + [release.version];
    forall i | 0 <= i < |after| ensures after[i].releases == Names(after)[..i + 1] {
      if i < |versions| {
        assert Names(after)[..i + 1] == Names(versions)[..i + 1];
      } else {
        assert Names(after)[..i + 1] == Names(after);
      }
    }
  }

  ghost predicate WellFormed(packages: Packages) {
    forall p :: p in packages ==>
      && packages[p] != [] && Chronicled(packages[p])
      && (forall i :: 0 <= i < |packages[p]| ==> packages[p][i].packageId == p)
      && (forall i, j :: 0 <= i < j < |packages[p]| ==> packages[p][i].version != packages[p][j].version)
  }

  /** The release stored under exactly this version. */
  function Find(versions: Versions, version: string): (r: Option<Release>)
    ensures r.Some? ==> r.value in versions && r.value.version == version
    ensures r.None? ==> forall x :: x in versions ==> x.version != version
  {
    if versions == [] then None
    else
      var n := |versions| - 1;
      assert versions == versions[..n] + [versions[n]];
      if versions[n].version == version then Some(versions[n]) else Find(versions[..n], version)
  }

  function Latest(versions: Versions): Release
    requires versions != []
  {
    versions[|versions| - 1]
  }

  /** The lookup of _version: an absent or empty version selects the latest release. */
  function Version(packages: Packages, id: Id, version: string): (r: Result<Release>)
    ensures r.Failure? ==> r.error == if id !in packages || packages[id] == [] then UnknownPackage else UnknownVersion
  {
    if id !in packages || packages[id] == [] then Failure(UnknownPackage)
    else
      var selected := if version == "" then Latest(packages[id]).version else version;
      match Find(packages[id], selected)
      case Some(release) => Success(release)
      case None => Failure(UnknownVersion)
  }

  /** What the lookup does, told by the stored releases: the last one when no version is given, and
      otherwise the one that carries the version. */
  lemma VersionExact(packages: Packages, id: Id, version: string)
    requires WellFormed(packages)
    ensures var r := Version(packages, id, version);
            && (r.Success? <==>
                  && id in packages
                  && (version != "" ==> exists i :: 0 <= i < |packages[id]| && packages[id][i].version == version))
            && (r.Success? && version == "" ==>
                  && packages[id] != [] && r.value == packages[id][|packages[id]| - 1])
            && (r.Success? && version != "" ==> r.value in packages[id] && r.value.version == version)
            && (r.Failure? ==> r.error == if id in packages then UnknownVersion else UnknownPackage)
  {
    if id in packages {
      VersionOfLatest(packages, id);
      assert forall i :: 0 <= i < |packages[id]| ==> packages[id][i] in packages[id];
    }
  }

  lemma VersionOfLatest(packages: Packages, id: Id)
    requires WellFormed(packages) && id in packages
    ensures Version(packages, id, "") == Success(Latest(packages[id]))
  {
    var versions := packages[id];
    var found := Find(versions, Latest(versions).version);
    assert Latest(versions) in versions;
  }

  /** The dependencies of the latest releases. */
  function LatestGraph(packages: Packages): (g: Graph)
    ensures g.Keys == packages.Keys
  {
    map p | p in packages :: if packages[p] == [] then [] else Latest(packages[p]).dependencies
  }

  // ---------- dependency_graph ----------

  class DependencyWalk {
    const packages: Packages
    ghost const root: Id
    var ordered: seq<Id>
    var visiting: set<Id>
    ghost var path: seq<Id>

    constructor (packages: Packages, ghost root: Id)
      ensures Valid() && this.packages == packages && this.root == root && ordered == [] && path == []
    {
      this.packages, this.root := packages, root;
      ordered, visiting, path := [], {}, [];
    }

    ghost predicate Valid()
      reads this
    {
      Consistent(LatestGraph(packages), root, ordered, path) && visiting == Elements(path)
    }

    method Visit(identifier: Id) returns (outcome: Outcome)
      requires Valid() && WellFormed(packages) && Follows(LatestGraph(packages), root, path, identifier)
      modifies this
      ensures outcome.Done? ==> Valid() && path == old(path) && old(ordered) <= ordered && identifier in ordered
      ensures outcome.Done? && identifier !in old(ordered) ==> ordered[|ordered| - 1] == identifier
      ensures outcome.Failed? ==> Justified(LatestGraph(packages), root, outcome.failure)
      decreases |LatestGraph(packages)| - |path|
    {
      hide Consistent, Justified, Follows, WellFormed, LatestGraph, Version, Latest;
      ghost var g, outer := LatestGraph(packages), path;
      if identifier in ordered {
        return Done;
      }
      if identifier in visiting {
        Repeats(g, root, ordered, path, identifier);
        return Failed(Cyclic(identifier));
      }
      if identifier !in packages {
        Absent(g, root, ordered, path, identifier);
        return Failed(Missing(identifier));
      }
      Enter(g, root, ordered, path, identifier);
      VersionOfLatest(packages, identifier);
      var dependencies := Version(packages, identifier, "").value.dependencies;
      LatestDependencies(packages, identifier);
      assert dependencies == g[identifier];
      visiting, path := visiting + {identifier}, path + [identifier];
      for k := 0 to |dependencies|
        invariant Valid() && path == outer + [identifier] && old(ordered) <= ordered
        invariant forall j :: 0 <= j < k ==> dependencies[j] in ordered
      {
        FollowsEdge(g, root, outer, identifier, dependencies[k]);
        outcome := Visit(dependencies[k]);
        if outcome.Failed? {
          return;
        }
      }
      Leave(g, root, ordered, outer, identifier);
      SetsFollow(ordered, outer, identifier);
      visiting, path := visiting - {identifier}, outer;
      ordered := ordered + [identifier];
      outcome := Done;
    }
  }

  lemma LatestDependencies(packages: Packages, id: Id)
    requires WellFormed(packages) && id in packages
    ensures packages[id] != [] && LatestGraph(packages)[id] == Latest(packages[id]).dependencies
  {}

  lemma FollowsEdge(g: Graph, root: Id, path: seq<Id>, n: Id, d: Id)
    requires n in g && d in g[n]
    ensures Follows(g, root, path + [n], d)
  {}

  /** Succeeds exactly when everything reachable through latest releases exists and is acyclic,
      and then lists exactly that, dependencies first and the package last. */
  method DependencyOrder(packages: Packages, id: Id) returns (r: Resolution)
    requires WellFormed(packages)
    ensures r.Order? <==> Sound(packages, id)
    ensures r.Order? ==>
              && DependenciesFirst(EdgesOf(LatestGraph(packages)), r.ids)
              && (forall n :: n in r.ids <==> Reaches(EdgesOf(LatestGraph(packages)), id, n))
              && r.ids != [] && r.ids[|r.ids| - 1] == id
    ensures r.Unresolved? ==> Justified(LatestGraph(packages), id, r.failure)
  {
    hide Justified, WellFormed;
    ghost var g := LatestGraph(packages);
    var walk := new DependencyWalk(packages, id);
    var outcome := walk.Visit(id);
    match outcome
    case Done =>
      FinishedSound(g, id, walk.ordered);
      assert DependenciesFirst(EdgesOf(g), walk.ordered);
      r := Order(walk.ordered);
    case Failed(failure) =>
      JustifiedUnsound(g, id, failure);
      r := Unresolved(failure);
  }

  ghost predicate Sound(packages: Packages, id: Id) {
    PresentFrom(LatestGraph(packages), id) && AcyclicFrom(EdgesOf(LatestGraph(packages)), id)
  }

  // ---------- the store as a value ----------

  datatype Store = Store(packages: Packages, installed: map<Id, string>, installHistory: map<Id, seq<string>>)

  function History(store: Store, id: Id): seq<string> {
    if id in store.installHistory then store.installHistory[id] else []
  }

  /** Every dependency of this release is installed, in whatever version. */
  predicate Satisfied(store: Store, id: Id, version: string) {
    id in store.packages &&
    match Find(store.packages[id], version)
    case Some(release) => forall d :: d in release.dependencies ==> d in store.installed
    case None => false
  }

  /** The store invariant: what is installed, and what a rollback may bring back, exists and has
      all its dependencies installed; only installed packages have a history. */
  ghost predicate Consistently(store: Store) {
    && WellFormed(store.packages)
    && (forall p :: p in store.installed ==> Satisfied(store, p, store.installed[p]))
    && (forall p, v :: v in History(store, p) ==> p in store.installed && Satisfied(store, p, v))
  }

  /** Recording a newly selected version, the previous one going to the history. */
  function Installing(store: Store, id: Id, version: string): Store {
    store.(installed := store.installed[id := version],
           installHistory := if id in store.installed
                             then store.installHistory[id := History(store, id) + [store.installed[id]]]
                             else store.installHistory)
  }

  /** Adding a release behind the package's earlier ones. */
  function Publishing(store: Store, release: Release): Store {
    store.(packages := store.packages[release.packageId := VersionsOf(store.packages, release.packageId) + [release]])
  }

  function VersionsOf(packages: Packages, id: Id): Versions {
    if id in packages then packages[id] else []
  }

  lemma StampedFields(versions: Versions, release: Release, verified: bool)
    ensures var stored := Stamped(versions, release, verified);
            && stored.packageId == release.packageId && stored.publisherId == release.publisherId
            && stored.version == release.version && stored.dependencies == release.dependencies
            && stored.downloads == release.downloads && stored.verified == verified
            && |stored.releases| == |versions| + 1 && stored.releases[|versions|] == release.version
            && forall i :: 0 <= i < |versions| ==> stored.releases[i] == versions[i].version
  {}

  /** Counting one more download of the latest release. */
  function Downloading(store: Store, id: Id): Store {
    if id !in store.packages || store.packages[id] == [] then store
    else
      var versions := store.packages[id];
      store.(packages := store.packages[id := versions[|versions| - 1 := Counted(Latest(versions))]])
  }

  function Counted(release: Release): Release {
    release.(downloads := release.downloads + 1)
  }

  /** The selected release exists, the latest releases reachable from the package exist and are
      acyclic, and the selected release's own dependencies are installed. */
  ghost predicate CanInstall(store: Store, id: Id, version: string) {
    var selected := Version(store.packages, id, version);
    && selected.Success? && Sound(store.packages, id)
    && forall d :: d in selected.value.dependencies ==> d in store.installed
  }

  /** What a failed installation reports is the case; the checks come in this order. */
  ghost predicate Explains(store: Store, id: Id, version: string, error: Error) {
    var selected := Version(store.packages, id, version);
    match error
    case Unresolvable(failure) => selected.Success? && Justified(LatestGraph(store.packages), id, failure)
    case NotInstalledDependencies =>
      && selected.Success? && Sound(store.packages, id)
      && exists d :: d in selected.value.dependencies && d !in store.installed
    case _ => selected == Failure(error)
  }

  function RollingBack(store: Store, id: Id): Store
    requires History(store, id) != []
  {
    var history := History(store, id);
    var n := |history| - 1;
    store.(installed := store.installed[id := history[n]], installHistory := store.installHistory[id := history[..n]])
  }

  lemma SatisfiedGrows(store: Store, after: Store, id: Id, version: string)
    requires Satisfied(store, id, version) && after.packages == store.packages &&
        store.installed.Keys <= after.installed.Keys
    ensures Satisfied(after, id, version)
  {}

  lemma InstallConsistent(store: Store, id: Id, version: string)
    requires Consistently(store) && Satisfied(store, id, version)
    ensures Consistently(Installing(store, id, version))
  {
    hide Satisfied, WellFormed;
    var after := Installing(store, id, version);
    SatisfiedGrows(store, after, id, version);
    forall p | p in after.installed ensures Satisfied(after, p, after.installed[p]) {
      if p != id { SatisfiedGrows(store, after, p, store.installed[p]); }
    }
    forall p, v | v in History(after, p) ensures p in after.installed && Satisfied(after, p, v) {
      if v in History(store, p) {
        SatisfiedGrows(store, after, p, v);
      } else {
        SatisfiedGrows(store, after, p, store.installed[p]);
      }
    }
  }

  lemma RollbackConsistent(store: Store, id: Id)
    requires Consistently(store) && History(store, id) != []
    ensures Consistently(RollingBack(store, id))
  {
    hide Satisfied, WellFormed;
    var after := RollingBack(store, id);
    var history := History(store, id);
    assert history[|history| - 1] in history;
    forall p | p in after.installed ensures Satisfied(after, p, after.installed[p]) {
      SatisfiedGrows(store, after, p, after.installed[p]);
    }
    forall p, v | v in History(after, p) ensures p in after.installed && Satisfied(after, p, v) {
      assert v in History(store, p);
      SatisfiedGrows(store, after, p, v);
    }
  }

  /** Adding a release or counting a download changes no stored release's dependencies. */
  lemma PackagesConsistent(store: Store, packages: Packages)
    requires Consistently(store) && WellFormed(packages)
    requires forall p, v :: p in store.packages && Find(store.packages[p], v).Some? ==>
               && p in packages && Find(packages[p], v).Some?
               && Find(packages[p], v).value.dependencies == Find(store.packages[p], v).value.dependencies
    ensures Consistently(store.(packages := packages))
  {
    var after := store.(packages := packages);
    forall p, v | Satisfied(store, p, v) ensures Satisfied(after, p, v) {
      assert Find(store.packages[p], v).Some?;
    }
    hide Satisfied;
    forall p, v | v in History(after, p) ensures p in after.installed && Satisfied(after, p, v) {
      assert v in History(store, p);
    }
  }

  // ---------- install and roll back ----------

  function InstallAll(store: Store, id: Id, versions: seq<string>): Store
    decreases |versions|
  {
    if versions == [] then store else InstallAll(Installing(store, id, versions[0]), id, versions[1..])
  }

  /** n rollbacks, as far as the history lasts. */
  function RollbackTimes(store: Store, id: Id, n: nat): Store
    decreases n
  {
    if n == 0 || History(store, id) == [] then store else RollbackTimes(RollingBack(store, id), id, n - 1)
  }

  /** The same stores, an absent history counting as an empty one. */
  ghost predicate SameStore(a: Store, b: Store) {
    a.packages == b.packages && a.installed == b.installed && forall p :: History(a, p) == History(b, p)
  }

  lemma RollingSame(a: Store, b: Store, id: Id)
    requires SameStore(a, b) && History(a, id) != []
    ensures SameStore(RollingBack(a, id), RollingBack(b, id))
  {
    var x, y := RollingBack(a, id), RollingBack(b, id);
    forall p ensures History(x, p) == History(y, p) {
      assert History(a, p) == History(b, p);
    }
  }

  lemma {:induction false} RollbackSame(a: Store, b: Store, id: Id, n: nat)
    requires SameStore(a, b)
    ensures SameStore(RollbackTimes(a, id, n), RollbackTimes(b, id, n))
    decreases n
  {
    if n > 0 && History(a, id) != [] {
      RollingSame(a, b, id);
      RollbackSame(RollingBack(a, id), RollingBack(b, id), id, n - 1);
    }
  }

  lemma {:induction false} RollbackLast(store: Store, id: Id, n: nat)
    requires |History(store, id)| > n
    ensures |History(RollbackTimes(store, id, n), id)| == |History(store, id)| - n
    ensures RollbackTimes(store, id, n + 1) == RollingBack(RollbackTimes(store, id, n), id)
    decreases n
  {
    if n > 0 {
      RollbackLast(RollingBack(store, id), id, n - 1);
    }
  }

  lemma InstallThenRollback(store: Store, id: Id, version: string)
    requires id in store.installed
    ensures |History(Installing(store, id, version), id)| == |History(store, id)| + 1
    ensures SameStore(RollingBack(Installing(store, id, version), id), store)
  {
    var after := RollingBack(Installing(store, id, version), id);
    assert after.installed == store.installed;
  }

  lemma {:induction false} HistoryGrows(store: Store, id: Id, versions: seq<string>)
    requires id in store.installed
    ensures |History(InstallAll(store, id, versions), id)| == |History(store, id)| + |versions|
    decreases |versions|
  {
    if versions != [] {
      HistoryGrows(Installing(store, id, versions[0]), id, versions[1..]);
    }
  }

  /** n re-installs of an installed package followed by n rollbacks restore its version and
      history and leave every other package untouched. */
  lemma {:induction false} RollbacksUndoInstalls(store: Store, id: Id, versions: seq<string>)
    requires id in store.installed
    ensures SameStore(RollbackTimes(InstallAll(store, id, versions), id, |versions|), store)
    decreases |versions|
  {
    if versions != [] {
      hide Installing, RollingBack;
      var n := |versions| - 1;
      var next := Installing(store, id, versions[0]);
      var top := InstallAll(next, id, versions[1..]);
      RollbacksUndoInstalls(next, id, versions[1..]);
      HistoryGrows(next, id, versions[1..]);
      InstallThenRollback(store, id, versions[0]);
      RollbackLast(top, id, n);
      var back := RollbackTimes(top, id, n);
      assert SameStore(back, next);
      RollingSame(back, next, id);
      assert History(store, id) == History(RollingBack(next, id), id);
    }
  }

  // ---------- the platform ----------

  class EnterpriseMarketplace {
    var publishers: map<Id, Profile>
    var packages: Packages
    var installed: map<Id, string>
    var installHistory: map<Id, seq<string>>

    ghost function State(): Store
      reads this
    {
      Store(packages, installed, installHistory)
    }

    ghost predicate Valid()
      reads this
    {
      Consistently(State())
    }

    constructor ()
      ensures Valid() && State() == Store(map[], map[], map[]) && publishers == map[]
    {
      publishers, packages, installed, installHistory := map[], map[], map[], map[];
    }

    method RegisterPublisher(profile: Profile) returns (r: Result<Profile>)
      requires Valid()
      modifies this`publishers
      ensures Valid()
      ensures r.Success? <==> profile.publisherId !in old(publishers)
      ensures publishers == if r.Success? then old(publishers)[profile.publisherId := profile] else old(publishers)
    {
      if profile.publisherId in publishers {
        return Failure(PublisherExists);
      }
      publishers := publishers[profile.publisherId := profile];
      r := Success(profile);
    }

    method VerifyPublisher(id: Id) returns (r: Result<Profile>)
      requires Valid()
      modifies this`publishers
      ensures Valid()
      ensures r.Success? <==> id in old(publishers)
      ensures publishers == if r.Success? then old(publishers)[id := old(publishers)[id].(verified := true)]
                            else old(publishers)
    {
      if id !in publishers {
        return Failure(UnknownPublisher);
      }
      publishers := publishers[id := publishers[id].(verified := true)];
      r := Success(publishers[id]);
    }

    /** A release goes to the end of its package's versions, stamped with its publisher's
        verification and the versions so far. */
    method Publish(release: Release) returns (r: Result<Release>)
      requires Valid()
      modifies this`packages
      ensures Valid()
      ensures r.Success? <==>
              && release.publisherId in publishers
              && Find(VersionsOf(old(packages), release.packageId), release.version).None?
      ensures r.Success? ==> r.value == Stamped(VersionsOf(old(packages), release.packageId), release,
                                                publishers[release.publisherId].verified)
      ensures r.Success? ==>
                && r.value.packageId == release.packageId && r.value.publisherId == release.publisherId
                && r.value.version == release.version && r.value.dependencies == release.dependencies
                && r.value.downloads == release.downloads
                && r.value.verified == publishers[release.publisherId].verified
                && var before := if release.packageId in old(packages) then old(packages)[release.packageId] else [];
                && |r.value.releases| == |before| + 1 && r.value.releases[|before|] == release.version
                && (forall i :: 0 <= i < |before| ==> r.value.releases[i] == before[i].version)
                && packages == old(packages)[release.packageId := before + [r.value]]
      ensures State() == if r.Success? then Publishing(old(State()), r.value) else old(State())
    {
      hide Consistently, Find, Stamped;
      if release.publisherId !in publishers {
        return Failure(UnknownPublisher);
      }
      var versions := VersionsOf(packages, release.packageId);
      if Find(versions, release.version).Some? {
        return Failure(VersionExists);
      }
      PublishConsistent(State(), release, publishers[release.publisherId].verified);
      var stored := Stamped(versions, release, publishers[release.publisherId].verified);
      StampedFields(versions, release, publishers[release.publisherId].verified);
      packages := packages[release.packageId := versions + [stored]];
      r := Success(stored);
    }

    /** version "" stands for none given. */
    method Install(id: Id, version: string) returns (r: Result<Release>)
      requires Valid()
      modifies this`installed, this`installHistory
      ensures Valid()
      ensures r.Success? <==> CanInstall(old(State()), id, version)
      ensures r.Failure? ==> State() == old(State()) && Explains(State(), id, version, r.error)
      ensures r.Success? ==>
                r == Version(packages, id, version) && State() == Installing(old(State()), id, r.value.version)
      ensures r.Success? ==>
                && id in packages && packages[id] != []
                && (version == "" ==> r.value == packages[id][|packages[id]| - 1])
                && (version != "" ==> r.value in packages[id] && r.value.version == version)
      ensures r.Failure? ==> (r.error.UnknownPackage? <==> id !in packages)
      ensures r.Failure? ==>
                (r.error.UnknownVersion? <==>
                   && id in packages && version != ""
                   && forall x :: x in packages[id] ==> x.version != version)
      ensures r.Success? ==>
                && installed == old(installed)[id := r.value.version]
                && (id in old(installed) ==>
                      History(State(), id) == History(old(State()), id) + [old(installed)[id]])
                && (id !in old(installed) ==> History(State(), id) == History(old(State()), id))
                && forall p :: p != id ==> History(State(), p) == History(old(State()), p)
    {
      hide Sound, Satisfied, WellFormed, DependenciesFirst, Version, Justified;
      VersionExact(packages, id, version);
      var selected := Version(packages, id, version);
      if selected.Failure? {
        return Failure(selected.error);
      }
      var release := selected.value;
      var resolution := DependencyOrder(packages, id);
      if resolution.Unresolved? {
        return Failure(Unresolvable(resolution.failure));
      }
      if exists d :: d in release.dependencies && d !in installed {
        return Failure(NotInstalledDependencies);
      }
      SelectedSatisfied(State(), id, version);
      InstallConsistent(State(), id, release.version);
      if id in installed {
        var previous := installed[id];
        var history := if id in installHistory then installHistory[id] else [];
        installHistory := installHistory[id := history + [previous]];
      }
      installed := installed[id := release.version];
      r := selected;
    }

    method Upgrade(id: Id, version: string) returns (r: Result<Release>)
      requires Valid()
      modifies this`installed, this`installHistory
      ensures Valid()
      ensures r.Success? <==> id in old(installed) && CanInstall(old(State()), id, version)
      ensures r.Failure? ==> State() == old(State())
      ensures r.Failure? ==>
                if id in old(installed) then Explains(State(), id, version, r.error) else r.error.NotInstalled?
      ensures r.Success? ==>
                r == Version(packages, id, version) && State() == Installing(old(State()), id, r.value.version)
      ensures r.Success? ==>
                && id in packages && packages[id] != []
                && (version == "" ==> r.value == packages[id][|packages[id]| - 1])
                && (version != "" ==> r.value in packages[id] && r.value.version == version)
      ensures r.Failure? ==> (r.error.UnknownPackage? <==> id in old(installed) && id !in packages)
      ensures r.Failure? ==>
                (r.error.UnknownVersion? <==>
                   && id in old(installed) && id in packages && version != ""
                   && forall x :: x in packages[id] ==> x.version != version)
      ensures r.Success? ==>
                && installed == old(installed)[id := r.value.version]
                && (id in old(installed) ==>
                      History(State(), id) == History(old(State()), id) + [old(installed)[id]])
                && (id !in old(installed) ==> History(State(), id) == History(old(State()), id))
                && forall p :: p != id ==> History(State(), p) == History(old(State()), p)
    {
      if id !in installed {
        return Failure(NotInstalled);
      }
      r := Install(id, version);
    }

    /** The release returned is the restored one unless its version is the empty string, which
        the lookup takes for none given. */
    method Rollback(id: Id) returns (r: Result<Release>)
      requires Valid()
      modifies this`installed, this`installHistory
      ensures Valid()
      ensures r.Success? <==> History(old(State()), id) != []
      ensures r.Failure? ==> State() == old(State())
      ensures r.Success? ==>
                && State() == RollingBack(old(State()), id)
                && (r.value.version == installed[id] <==> installed[id] != "" || Latest(packages[id]).version == "")
    {
      var history := if id in installHistory then installHistory[id] else [];
      if history == [] {
        return Failure(NoRollback);
      }
      RollbackConsistent(State(), id);
      var version := history[|history| - 1];
      installHistory := installHistory[id := history[..|history| - 1]];
      installed := installed[id := version];
      RestoredVersion(State(), id);
      r := Version(packages, id, version);
    }

    /** Only the download count of the latest release changes. */
    method Download(id: Id) returns (r: Result<Release>)
      requires Valid()
      modifies this`packages
      ensures Valid()
      ensures r.Success? <==> id in old(packages)
      ensures State() == if r.Success? then Downloading(old(State()), id) else old(State())
      ensures r.Success? ==> old(packages)[id] != [] && r.value == Counted(Latest(old(packages)[id]))
      ensures r.Success? ==>
                && var before := old(packages)[id];
                && var latest := before[|before| - 1];
                && r.value == latest.(downloads := latest.downloads + 1)
                && packages == old(packages)[id := before[..|before| - 1] + [r.value]]
    {
      if id !in packages {
        return Failure(UnknownPackage);
      }
      hide Consistently, Version, WellFormed, Find, Downloading;
      LatestFound(State(), id);
      var release := Version(packages, id, "").value;
      var updated := Counted(release);
      var versions := packages[id];
      var after := packages[id := versions[|versions| - 1 := updated]];
      assert versions[|versions| - 1 := updated] == versions[..|versions| - 1] + [updated];
      DownloadConsistent(State(), id, after);
      packages := after;
      r := Success(updated);
    }
  }

  lemma SelectedSatisfied(store: Store, id: Id, version: string)
    requires Consistently(store) && Version(store.packages, id, version).Success?
    requires forall d :: d in Version(store.packages, id, version).value.dependencies ==> d in store.installed
    ensures Satisfied(store, id, Version(store.packages, id, version).value.version)
  {}

  lemma RestoredVersion(store: Store, id: Id)
    requires Consistently(store) && id in store.installed
    ensures var v := store.installed[id];
            var r := Version(store.packages, id, v);
            && id in store.packages && store.packages[id] != []
            && r.Success? && (r.value.version == v <==> v != "" || Latest(store.packages[id]).version == "")
  {
    assert Satisfied(store, id, store.installed[id]);
    VersionOfLatest(store.packages, id);
  }

  lemma {:induction false} FindAppend(versions: Versions, release: Release, v: string)
    ensures Find(versions + [release], v) == if release.version == v then Some(release) else Find(versions, v)
  {
    assert (versions + [release])[..|versions|] == versions;
  }

  lemma PublishConsistent(store: Store, release: Release, verified: bool)
    requires Consistently(store)
    requires Find(VersionsOf(store.packages, release.packageId), release.version).None?
    ensures Consistently(Publishing(store, Stamped(VersionsOf(store.packages, release.packageId), release, verified)))
  {
    var versions := VersionsOf(store.packages, release.packageId);
    var stored := Stamped(versions, release, verified);
    forall v { FindAppend(versions, stored, v); }
    ChronicleGrows(versions, release, verified);
    hide Chronicled, Names;
    PackagesConsistent(store, store.packages[release.packageId := versions + [stored]]);
  }

  lemma LatestFound(store: Store, id: Id)
    requires Consistently(store) && id in store.packages
    ensures store.packages[id] != []
    ensures Version(store.packages, id, "") == Success(Latest(store.packages[id]))
  {
    VersionOfLatest(store.packages, id);
  }

  lemma CountedFound(versions: Versions, v: string)
    requires versions != []
    ensures var after := versions[|versions| - 1 := Counted(Latest(versions))];
            && (Find(versions, v).Some? <==> Find(after, v).Some?)
            && (Find(versions, v).Some? ==> Find(after, v).value.dependencies == Find(versions, v).value.dependencies)
  {
    var n := |versions| - 1;
    var counted := Counted(versions[n]);
    assert versions == versions[..n] + [versions[n]] && versions[n := counted] == versions[..n] + [counted];
    FindAppend(versions[..n], versions[n], v);
    FindAppend(versions[..n], counted, v);
  }

  lemma CountedWellFormed(packages: Packages, id: Id)
    requires WellFormed(packages) && id in packages
    ensures packages[id] != []
    ensures var versions := packages[id];
            WellFormed(packages[id := versions[|versions| - 1 := Counted(Latest(versions))]])
  {
    var versions := packages[id];
    assert Names(versions[|versions| - 1 := Counted(Latest(versions))]) == Names(versions);
    hide Names;
  }

  lemma DownloadConsistent(store: Store, id: Id, packages: Packages)
    requires Consistently(store) && id in store.packages && store.packages[id] != []
    requires var versions := store.packages[id];
             packages == store.packages[id := versions[|versions| - 1 := Counted(Latest(versions))]]
    ensures store.(packages := packages) == Downloading(store, id) && Consistently(Downloading(store, id))
  {
    CountedWellFormed(store.packages, id);
    hide WellFormed, Find, Counted, Latest;
    forall v { CountedFound(store.packages[id], v); }
    PackagesConsistent(store, packages);
  }

  // ---------- when installed releases can depend on each other ----------

  /** What one stored release depends on. */
  function DependenciesOf(packages: Packages, id: Id, version: string): seq<Id> {
    if id !in packages then []
    else
      match Find(packages[id], version)
      case Some(release) => release.dependencies
      case None => []
  }

  /** The dependencies of the installed releases. */
  function InstalledGraph(store: Store): Graph {
    map p | p in store.installed :: DependenciesOf(store.packages, p, store.installed[p])
  }

  /** An installation keeps the installed releases free of cycles exactly when nothing the new
      release depends on leads back to its package through the releases installed before. */
  lemma InstallAcyclicIff(store: Store, id: Id, version: string)
    requires Acyclic(EdgesOf(InstalledGraph(store)))
    ensures Acyclic(EdgesOf(InstalledGraph(Installing(store, id, version)))) <==>
            forall d :: d in DependenciesOf(store.packages, id, version) ==>
                !Reaches(EdgesOf(InstalledGraph(store)), d, id)
  {
    var targets := DependenciesOf(store.packages, id, version);
    assert InstalledGraph(Installing(store, id, version)) == InstalledGraph(store)[id := targets];
    RetargetAcyclicIff(InstalledGraph(store), id, targets);
  }

  /** And so does a rollback, for the release it restores. */
  lemma RollbackAcyclicIff(store: Store, id: Id)
    requires History(store, id) != [] && Acyclic(EdgesOf(InstalledGraph(store)))
    ensures var history := History(store, id);
            Acyclic(EdgesOf(InstalledGraph(RollingBack(store, id)))) <==>
            forall d :: d in DependenciesOf(store.packages, id, history[|history| - 1]) ==>
              !Reaches(EdgesOf(InstalledGraph(store)), d, id)
  {
    var history := History(store, id);
    var targets := DependenciesOf(store.packages, id, history[|history| - 1]);
    assert InstalledGraph(RollingBack(store, id)) == InstalledGraph(store)[id := targets];
    RetargetAcyclicIff(InstalledGraph(store), id, targets);
  }

  /** No other operation touches the installed graph. */
  lemma PublishKeepsGraph(store: Store, release: Release)
    requires Consistently(store)
    requires release.packageId in store.packages ==> Find(store.packages[release.packageId], release.version).None?
    ensures InstalledGraph(Publishing(store, release)) == InstalledGraph(store)
  {
    var id := release.packageId;
    var versions := if id in store.packages then store.packages[id] else [];
    forall p | p in store.installed
      ensures DependenciesOf(Publishing(store, release).packages, p, store.installed[p]) ==
              DependenciesOf(store.packages, p, store.installed[p])
    {
      assert Satisfied(store, p, store.installed[p]);
      FindAppend(versions, release, store.installed[p]);
    }
  }

  lemma DownloadKeepsGraph(store: Store, id: Id)
    ensures InstalledGraph(Downloading(store, id)) == InstalledGraph(store)
  {
    if id in store.packages && store.packages[id] != [] {
      forall v ensures DependenciesOf(Downloading(store, id).packages, id, v) == DependenciesOf(store.packages, id, v) {
        CountedFound(store.packages[id], v);
      }
    }
  }

  /** Every installed release is its package's latest. */
  ghost predicate UpToDate(store: Store) {
    forall p :: p in store.installed && p in store.packages && store.packages[p] != [] ==>
      store.installed[p] == Latest(store.packages[p]).version
  }

  lemma LatestDependency(packages: Packages, p: Id)
    requires WellFormed(packages) && p in packages
    ensures packages[p] != [] && DependenciesOf(packages, p, Latest(packages[p]).version) == LatestGraph(packages)[p]
  {
    VersionOfLatest(packages, p);
  }

  lemma UpToDateEdges(store: Store)
    requires Consistently(store) && UpToDate(store)
    ensures forall a, b :: (a, b) in EdgesOf(InstalledGraph(store)) ==> (a, b) in EdgesOf(LatestGraph(store.packages))
  {
    hide Find;
    forall p | p in store.installed
      ensures p in store.packages && InstalledGraph(store)[p] == LatestGraph(store.packages)[p]
    {
      assert Satisfied(store, p, store.installed[p]);
      LatestDependency(store.packages, p);
    }
    hide DependenciesOf, LatestGraph;
  }

  lemma InstallUpToDate(store: Store, id: Id)
    requires UpToDate(store) && id in store.packages && store.packages[id] != []
    ensures UpToDate(Installing(store, id, Latest(store.packages[id]).version))
  {}

  lemma NoWayBack(store: Store, id: Id, d: Id)
    requires Consistently(store) && UpToDate(store) && Sound(store.packages, id)
    requires id in store.packages && d in LatestGraph(store.packages)[id]
    ensures !Reaches(EdgesOf(InstalledGraph(store)), d, id)
  {
    UpToDateEdges(store);
    hide Consistently, UpToDate, InstalledGraph, LatestGraph;
    AcyclicFromOutside(EdgesOf(InstalledGraph(store)), EdgesOf(LatestGraph(store.packages)), id, d);
  }

  /** Where everything installed is up to date the store's own cycle check is enough. */
  lemma UpToDateInstall(store: Store, id: Id)
    requires Consistently(store) && UpToDate(store) && Acyclic(EdgesOf(InstalledGraph(store))) &&
        CanInstall(store, id, "")
    ensures var latest := Version(store.packages, id, "").value.version;
            UpToDate(Installing(store, id, latest)) && Acyclic(EdgesOf(InstalledGraph(Installing(store, id, latest))))
  {
    VersionOfLatest(store.packages, id);
    LatestDependency(store.packages, id);
    hide Version, Find, DependenciesOf, InstalledGraph, LatestGraph, Acyclic, Sound, Reaches;
    var latest := Latest(store.packages[id]).version;
    forall d | d in DependenciesOf(store.packages, id, latest) ensures !Reaches(EdgesOf(InstalledGraph(store)), d, id) {
      NoWayBack(store, id, d);
    }
    InstallAcyclicIff(store, id, latest);
    InstallUpToDate(store, id);
    hide UpToDate, Installing;
  }

  // ---------- a limit of the cycle check ----------

  lemma SoundLeaf(packages: Packages, id: Id)
    requires WellFormed(packages) && id in packages && Latest(packages[id]).dependencies == []
    ensures Sound(packages, id)
  {
    var g := LatestGraph(packages);
    assert Settled(g, id, 1);
    SettledPresent(g, id, 1);
    SettledAcyclic(g, id, 1);
  }

  lemma SoundAboveLeaf(packages: Packages, id: Id, leaf: Id)
    requires WellFormed(packages) && id in packages && leaf in packages
    requires Latest(packages[id]).dependencies == [leaf] && Latest(packages[leaf]).dependencies == []
    ensures Sound(packages, id)
  {
    var g := LatestGraph(packages);
    assert Settled(g, leaf, 1);
    assert Settled(g, id, 2);
    SettledPresent(g, id, 2);
    SettledAcyclic(g, id, 2);
  }

  const A1 := Release("a", "p", "1", [], 0, false, ["1"])
  const A2 := Release("a", "p", "2", ["b"], 0, false, ["1", "2"])
  const A3 := Release("a", "p", "3", [], 0, false, ["1", "2", "3"])
  const B1 := Release("b", "p", "1", ["a"], 0, false, ["1"])

  const EMPTY := Store(map[], map[], map[])
  const A_PUBLISHED := Store(map["a" := [A1]], map[], map[])
  const B_PUBLISHED := Store(map["a" := [A1], "b" := [B1]], map["a" := "1"], map[])
  const ALL_PUBLISHED := Store(map["a" := [A1, A2, A3], "b" := [B1]], map["a" := "1", "b" := "1"], map[])

  lemma AsStored()
    ensures A1 == Stamped([], A1, false) && A2 == Stamped([A1], A2, false) && A3 == Stamped([A1, A2], A3, false)
    ensures B1 == Stamped([], B1, false)
  {
    assert Names([]) == [] && Names([A1]) == ["1"] && Names([A1, A2]) == ["1", "2"];
  }

  lemma FirstInstall()
    ensures Publishing(EMPTY, A1) == A_PUBLISHED && CanInstall(A_PUBLISHED, "a", "1")
    ensures Publishing(Installing(A_PUBLISHED, "a", "1"), B1) == B_PUBLISHED
  {
    assert [] + [A1] == [A1] && [] + [B1] == [B1];
    SoundLeaf(A_PUBLISHED.packages, "a");
  }

  lemma SecondInstall()
    ensures CanInstall(B_PUBLISHED, "b", "1")
  {
    SoundAboveLeaf(B_PUBLISHED.packages, "b", "a");
    hide Sound;
  }

  lemma LastPublications()
    ensures Publishing(Publishing(Installing(B_PUBLISHED, "b", "1"), A2), A3) == ALL_PUBLISHED
  {
    assert [A1] + [A2] == [A1, A2] && [A1, A2] + [A3] == [A1, A2, A3];
  }

  lemma ThirdInstall()
    ensures Find([A1, A2, A3], "2") == Some(A2) && Find([B1], "1") == Some(B1)
    ensures CanInstall(ALL_PUBLISHED, "a", "2")
  {
    assert [A1, A2, A3][..2] == [A1, A2];
    assert Find([A1, A2, A3], "2") == Some(A2);
    SoundLeaf(ALL_PUBLISHED.packages, "a");
    hide Sound;
  }

  /** The cycle check looks at latest releases while an older one is installed, so ordinary
      operations can leave two installed releases that depend on each other: install a@1, then
      b@1 above it, publish a@2 above b and a@3 above nothing, and install a@2. */
  lemma InstalledCycle()
    ensures A1 == Stamped([], A1, false) && A2 == Stamped([A1], A2, false) && A3 == Stamped([A1, A2], A3, false)
    ensures B1 == Stamped([], B1, false)
    ensures Publishing(EMPTY, A1) == A_PUBLISHED && CanInstall(A_PUBLISHED, "a", "1")
    ensures Publishing(Installing(A_PUBLISHED, "a", "1"), B1) == B_PUBLISHED && CanInstall(B_PUBLISHED, "b", "1")
    ensures Publishing(Publishing(Installing(B_PUBLISHED, "b", "1"), A2), A3) == ALL_PUBLISHED &&
        CanInstall(ALL_PUBLISHED, "a", "2")
    ensures var last := Installing(ALL_PUBLISHED, "a", "2");
            && last.installed["a"] == "2" && Find(last.packages["a"], "2") == Some(A2) && "b" in A2.dependencies
            && last.installed["b"] == "1" && Find(last.packages["b"], "1") == Some(B1) && "a" in B1.dependencies
  {
    AsStored();
    hide Sound, Find, Publishing, CanInstall, Stamped;
    FirstInstall();
    SecondInstall();
    LastPublications();
    ThirdInstall();
  }
}
