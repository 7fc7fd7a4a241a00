/** The package validation of app_store/service.py: a depth-bounded recursion that copies the
    set of visited ancestors for every branch. */
module AppStore {
  import opened Graphs
  import opened Chains

  datatype Package = Package(id: Id, dependencies: seq<Id>)

  datatype Verdict = Accepted | DepthExceeded | Circular(id: Id) | MissingDependency(id: Id)

  type Packages = map<Id, Package>

  ghost predicate WellKeyed(packages: Packages) {
    forall p :: p in packages ==> packages[p].id == p
  }

  function DependencyGraph(packages: Packages): Graph {
    map p | p in packages :: packages[p].dependencies
  }

  function DependencyEdges(packages: Packages): Edges {
    EdgesOf(DependencyGraph(packages))
  }

  /** One call of the recursion; maximum is the policy's maximum_dependency_depth. */
  function Validate(packages: Packages, maximum: int, package: Package, visited: set<Id>, depth: nat): Verdict
    decreases maximum + 1 - depth, 1, 0
  {
    if depth > maximum then DepthExceeded
    else if package.id in visited then Circular(package.id)
    else ValidateAll(packages, maximum, package.dependencies, visited + {package.id}, depth)
  }

  /** The loop over the dependencies, each with its own copy of visited. */
  function ValidateAll(packages: Packages, maximum: int, dependencies: seq<Id>, visited: set<Id>, depth: nat): Verdict
    requires depth <= maximum
    decreases maximum + 1 - depth, 0, |dependencies|
  {
    if dependencies == [] then Accepted
    else if dependencies[0] !in packages then MissingDependency(dependencies[0])
    else
      var first := Validate(packages, maximum, packages[dependencies[0]], visited, depth + 1);
      if first.Accepted? then ValidateAll(packages, maximum, dependencies[1..], visited, depth) else first
  }

  /** v lies strictly above n on some dependency chain. */
  ghost predicate Above(e: Edges, v: Id, n: Id) {
    exists w :: WalkFromTo(e, w, v, n) && |w| >= 2
  }

  lemma AboveStep(e: Edges, v: Id, n: Id, d: Id)
    requires (Above(e, v, n) || v == n) && (n, d) in e
    ensures Above(e, v, d)
  {
    if v == n {
      assert WalkFromTo(e, [n, d], v, d);
    } else {
      var w :| WalkFromTo(e, w, v, n) && |w| >= 2;
      assert WalkFromTo(e, w + [d], v, d);
    }
  }

  /** How many nodes a chain from the current package may still have. */
  function Allowance(maximum: int, depth: nat): nat {
    if depth > maximum then 0 else maximum - depth + 1
  }

  /** What a rejection reports is real. */
  ghost predicate Justified(packages: Packages, n: Id, allowance: nat, verdict: Verdict) {
    var e := DependencyEdges(packages);
    match verdict
    case Accepted => true
    case DepthExceeded => exists w :: IsWalk(e, w) && w[0] == n && |w| > allowance
    case Circular(c) => exists w :: IsCycle(e, w) && w[0] == c && Reaches(e, n, c)
    case MissingDependency(m) => Reaches(e, n, m) && m !in packages
  }

  lemma JustifiedBelow(packages: Packages, n: Id, d: Id, allowance: nat, verdict: Verdict)
    requires Justified(packages, d, allowance, verdict) && (n, d) in DependencyEdges(packages)
    ensures Justified(packages, n, allowance + 1, verdict)
  {
    var e := DependencyEdges(packages);
    assert WalkFromTo(e, [n, d], n, d);
    match verdict
    case Accepted =>
    case DepthExceeded =>
      var w :| IsWalk(e, w) && w[0] == d && |w| > allowance;
      Join(e, [n, d], w);
    case Circular(c) => ReachesTrans(e, n, d, c);
    case MissingDependency(m) => ReachesTrans(e, n, d, m);
  }

  /** The visited set never changes the verdict beyond what depth and presence decide: with
      visited holding ancestors only, acceptance is being settled within the allowance. */
  lemma {:induction false} ValidateSettles(packages: Packages, maximum: int, n: Id, visited: set<Id>, depth: nat)
    requires WellKeyed(packages) && n in packages
    requires forall v :: v in visited ==> Above(DependencyEdges(packages), v, n)
    ensures Validate(packages, maximum, packages[n], visited, depth).Accepted? <==>
            Settled(DependencyGraph(packages), n, Allowance(maximum, depth))
    ensures Justified(packages, n, Allowance(maximum, depth), Validate(packages, maximum, packages[n], visited, depth))
    decreases maximum + 1 - depth, 1, 0
  {
    var g, e, k := DependencyGraph(packages), DependencyEdges(packages), Allowance(maximum, depth);
    if depth > maximum {
      assert IsWalk(e, [n]) && [n][0] == n;
    } else if n in visited {
      var w :| WalkFromTo(e, w, n, n) && |w| >= 2;
      assert IsCycle(e, w);
      ReachesSelf(e, n);
      if Settled(g, n, k) {
        SettledAcyclic(g, n, k);
      }
    } else {
      forall v, d | v in visited + {n} && d in g[n] ensures Above(e, v, d) {
        AboveStep(e, v, n, d);
      }
      ValidateAllSettles(packages, maximum, n, g[n], visited + {n}, depth);
    }
  }

  lemma {:induction false} ValidateAllSettles(packages: Packages, maximum: int, n: Id, dependencies: seq<Id>,
                                              visited: set<Id>, depth: nat)
    requires WellKeyed(packages) && depth <= maximum && n in packages
    requires forall d :: d in dependencies ==> (n, d) in DependencyEdges(packages)
    requires forall v, d :: v in visited && d in dependencies ==> Above(DependencyEdges(packages), v, d)
    ensures ValidateAll(packages, maximum, dependencies, visited, depth).Accepted? <==>
            forall d :: d in dependencies ==> Settled(DependencyGraph(packages), d, Allowance(maximum, depth + 1))
    ensures Justified(packages, n, Allowance(maximum, depth),
        ValidateAll(packages, maximum, dependencies, visited, depth))
    decreases maximum + 1 - depth, 0, |dependencies|
  {
    if dependencies != [] {
      var d := dependencies[0];
      assert d in dependencies;
      if d !in packages {
        assert WalkFromTo(DependencyEdges(packages), [n, d], n, d);
      } else {
        ValidateSettles(packages, maximum, d, visited, depth + 1);
        JustifiedBelow(packages, n, d, Allowance(maximum, depth + 1),
                       Validate(packages, maximum, packages[d], visited, depth + 1));
        ValidateAllSettles(packages, maximum, n, dependencies[1..], visited, depth);
        assert forall x :: x in dependencies <==> x == d || x in dependencies[1..];
      }
    }
  }

  /** The longest dependency chain from n has at most maximum edges. */
  ghost predicate HeightAtMost(e: Edges, n: Id, maximum: int) {
    forall w :: IsWalk(e, w) && w[0] == n ==> |w| - 1 <= maximum
  }

  /** What install asks for: everything reachable is registered, nothing reachable is cyclic and
      no chain is longer than the policy's bound. */
  lemma ValidateExact(packages: Packages, maximum: int, n: Id)
    requires WellKeyed(packages) && n in packages
    ensures Validate(packages, maximum, packages[n], {}, 0).Accepted? <==>
            && PresentFrom(DependencyGraph(packages), n)
            && AcyclicFrom(DependencyEdges(packages), n)
            && HeightAtMost(DependencyEdges(packages), n, maximum)
    ensures Justified(packages, n, Allowance(maximum, 0), Validate(packages, maximum, packages[n], {}, 0))
  {
    var g, e, k := DependencyGraph(packages), DependencyEdges(packages), Allowance(maximum, 0);
    ValidateSettles(packages, maximum, n, {}, 0);
    SettledMeaning(g, n, k);
    if Settled(g, n, k) {
      SettledPresent(g, n, k);
      SettledAcyclic(g, n, k);
    } else if PresentFrom(g, n) && HeightAtMost(e, n, maximum) {
      var w := UnsettledWalk(g, n, k);
      assert WalkFromTo(e, w, n, w[|w| - 1]);
    }
  }

  /** A bound of at least the number of packages less one never rejects a sound package. */
  lemma GenerousBound(packages: Packages, maximum: int, n: Id)
    requires WellKeyed(packages) && n in packages && maximum >= |packages| - 1
    ensures Validate(packages, maximum, packages[n], {}, 0).Accepted? <==>
            PresentFrom(DependencyGraph(packages), n) && AcyclicFrom(DependencyEdges(packages), n)
  {
    var g := DependencyGraph(packages);
    ValidateSettles(packages, maximum, n, {}, 0);
    assert g.Keys == packages.Keys;
    SettledIffSound(g, n, Allowance(maximum, 0));
  }
}
