/** The invariant of a recursive depth-first dependency walk that keeps the nodes being visited
    apart from the finished ones, shared by the resolver and the package store. */
module DepthFirst {
  import opened Graphs
  import opened Chains

  datatype Failure = Missing(identifier: Id) | Cyclic(identifier: Id)

  datatype Outcome = Done | Failed(failure: Failure)

  /** One walk under way: done lists the finished nodes in order, path the ones being
      visited in order of entry. */
  ghost predicate Consistent(g: Graph, root: Id, done: seq<Id>, path: seq<Id>) {
    && Distinct(path) && (forall n :: n in path ==> n in g && n !in done)
    && (path != [] ==> IsWalk(EdgesOf(g), path) && path[0] == root)
    && DependenciesFirst(EdgesOf(g), done)
    && (forall n :: n in done ==> n in g && Reaches(EdgesOf(g), root, n))
  }

  /** The next node extends the path, or starts it at the root. */
  ghost predicate Follows(g: Graph, root: Id, path: seq<Id>, n: Id) {
    if path == [] then n == root else (path[|path| - 1], n) in EdgesOf(g)
  }

  /** What a failure reports is real: an absent or cyclic node reachable from the root. */
  ghost predicate Justified(g: Graph, root: Id, failure: Failure) {
    Reaches(EdgesOf(g), root, failure.identifier) &&
    match failure
    case Missing(m) => m !in g
    case Cyclic(c) => exists w :: IsCycle(EdgesOf(g), w) && w[0] == c
  }

  lemma FollowsReaches(g: Graph, root: Id, done: seq<Id>, path: seq<Id>, n: Id)
    requires Consistent(g, root, done, path) && Follows(g, root, path, n)
    ensures Reaches(EdgesOf(g), root, n)
  {
    if path == [] {
      ReachesSelf(EdgesOf(g), root);
    } else {
      assert WalkFromTo(EdgesOf(g), path + [n], root, n);
    }
  }

  lemma Absent(g: Graph, root: Id, done: seq<Id>, path: seq<Id>, n: Id)
    requires Consistent(g, root, done, path) && Follows(g, root, path, n) && n !in g
    ensures Justified(g, root, Missing(n))
  {
    FollowsReaches(g, root, done, path, n);
  }

  lemma Repeats(g: Graph, root: Id, done: seq<Id>, path: seq<Id>, n: Id)
    requires Consistent(g, root, done, path) && Follows(g, root, path, n) && n in path
    ensures Justified(g, root, Cyclic(n))
  {
    FollowsReaches(g, root, done, path, n);
    var i :| 0 <= i < |path| && path[i] == n;
    assert IsCycle(EdgesOf(g), path[i..] + [n]);
  }

  lemma Enter(g: Graph, root: Id, done: seq<Id>, path: seq<Id>, n: Id)
    requires Consistent(g, root, done, path) && Follows(g, root, path, n)
    requires n in g && n !in path && n !in done
    ensures Consistent(g, root, done, path + [n])
    ensures |path| < |g|
  {
    DistinctSnoc(path, n);
    DistinctFits(path + [n], g.Keys);
  }

  lemma Leave(g: Graph, root: Id, done: seq<Id>, path: seq<Id>, n: Id)
    requires Consistent(g, root, done, path + [n]) && n in g
    requires Follows(g, root, path, n)
    requires forall d :: d in g[n] ==> d in done
    ensures Consistent(g, root, done + [n], path)
    ensures n !in done
  {
    var stack := path + [n];
    PopWalk(EdgesOf(g), path, n);
    assert n in stack;
    assert WalkFromTo(EdgesOf(g), stack, root, n);
    DependenciesFirstExtend(EdgesOf(g), done, n);
  }

  lemma SetsFollow(done: seq<Id>, path: seq<Id>, n: Id)
    requires n !in path
    ensures Elements(path + [n]) == Elements(path) + {n} && Elements(path + [n]) - {n} == Elements(path)
    ensures Elements(done + [n]) == Elements(done) + {n}
  {}

  /** A finished order from the root answers both questions about everything reachable. */
  lemma FinishedSound(g: Graph, root: Id, done: seq<Id>)
    requires Consistent(g, root, done, []) && root in done
    ensures forall n :: n in done <==> Reaches(EdgesOf(g), root, n)
    ensures PresentFrom(g, root) && AcyclicFrom(EdgesOf(g), root)
  {
    DependenciesFirstSound(EdgesOf(g), done, root);
  }

  lemma JustifiedUnsound(g: Graph, root: Id, failure: Failure)
    requires Justified(g, root, failure)
    ensures !(PresentFrom(g, root) && AcyclicFrom(EdgesOf(g), root))
  {}
}
