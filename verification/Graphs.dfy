/** Finite directed graphs as edge sets: walks, reachability, cycles and bounded chains.
    Every search, ordering and dependency algorithm of the project is specified against
    this module. */
module Graphs {

  type Id = string

  /** An adjacency dictionary: node to the ordered list of its targets. */
  type Graph = map<Id, seq<Id>>

  type Edges = set<(Id, Id)>

  function EdgesOf(g: Graph): (e: Edges)
    ensures forall a, b :: (a, b) in e <==> a in g && b in g[a]
  {
    set a, b | a in g && b in g[a] :: (a, b)
  }

  // ---------- sequences without repetition ----------

  ghost predicate Distinct<T(!new)>(s: seq<T>) {
    forall i, j :: 0 <= i < j < |s| ==> s[i] != s[j]
  }

  function Elements<T(!new,==)>(s: seq<T>): (r: set<T>)
    ensures forall x :: x in r <==> x in s
  {
    set x | x in s
  }

  lemma {:induction false} DistinctIff<T(!new)>(s: seq<T>)
    ensures |Elements(s)| <= |s|
    ensures Distinct(s) <==> |Elements(s)| == |s|
  {
    if s != [] {
      var n := |s| - 1;
      DistinctIff(s[..n]);
      if s[n] in s[..n] {
        assert Elements(s) == Elements(s[..n]);
        var i :| 0 <= i < n && s[..n][i] == s[n];
        assert s[i] == s[n];
      } else {
        assert Elements(s) == Elements(s[..n]) + {s[n]};
        if Distinct(s[..n]) {
          DistinctSnoc(s[..n], s[n]);
          assert s == s[..n] + [s[n]];
        }
      }
    }
  }

  lemma DistinctSnoc<T(!new)>(s: seq<T>, x: T)
    requires Distinct(s) && x !in s
    ensures Distinct(s + [x])
  {}

  lemma DistinctCons<T(!new)>(x: T, s: seq<T>)
    ensures Distinct([x] + s) <==> x !in s && Distinct(s)
  {
    var r := [x] + s;
    assert forall i :: 0 <= i < |s| ==> r[i + 1] == s[i];
    if x in s {
      var i :| 0 <= i < |s| && s[i] == x;
      assert r[0] == r[i + 1];
    }
  }

  lemma DistinctConcat<T(!new)>(a: seq<T>, b: seq<T>)
    requires Distinct(a) && Distinct(b) && forall x :: x in a ==> x !in b
    ensures Distinct(a + b)
  {
    var r := a + b;
    forall i, j | 0 <= i < j < |r| ensures r[i] != r[j] {
      if i < |a| <= j {
        assert r[i] in a && r[j] == b[j - |a|];
      }
    }
  }

  lemma NoMembers<T(!new)>(s: seq<T>)
    ensures s == [] || exists x :: x in s
  {
    assert s == [] || s[0] in s;
  }

  lemma SubsetSize<T(!new)>(a: set<T>, b: set<T>)
    requires a <= b
    ensures |a| <= |b|
    ensures a != b ==> |a| < |b|
  {
    assert b == a + (b - a);
  }

  /** Pigeonhole: a repetition-free sequence over s is no longer than s is large. */
  lemma DistinctFits<T(!new)>(w: seq<T>, s: set<T>)
    requires Distinct(w)
    requires forall x :: x in w ==> x in s
    ensures |w| <= |s|
  {
    DistinctIff(w);
    SubsetSize(Elements(w), s);
  }

  // ---------- walks ----------

  /** A non-empty node sequence whose neighbours are joined by edges; it has |w| - 1 edges. */
  ghost predicate IsWalk(e: Edges, w: seq<Id>) {
    |w| > 0 && forall i, j :: 0 <= i && j == i + 1 && j < |w| ==> (w[i], w[j]) in e
  }

  ghost predicate WalkFromTo(e: Edges, w: seq<Id>, s: Id, t: Id) {
    IsWalk(e, w) && w[0] == s && w[|w| - 1] == t
  }

  ghost predicate Reaches(e: Edges, s: Id, t: Id) {
    exists w :: WalkFromTo(e, w, s, t)
  }

  /** A walk of exactly k edges leads from s to t. */
  ghost predicate ReachesIn(e: Edges, s: Id, t: Id, k: nat) {
    exists w :: WalkFromTo(e, w, s, t) && |w| == k + 1
  }

  /** k is the number of edges of a shortest walk from s to t. */
  ghost predicate AtDistance(e: Edges, s: Id, t: Id, k: nat) {
    ReachesIn(e, s, t, k) && forall w :: WalkFromTo(e, w, s, t) ==> k + 1 <= |w|
  }

  lemma ReachesSelf(e: Edges, s: Id)
    ensures Reaches(e, s, s) && ReachesIn(e, s, s, 0)
  {
    assert WalkFromTo(e, [s], s, s);
  }

  lemma ReachesStep(e: Edges, s: Id, m: Id, t: Id, k: nat)
    requires ReachesIn(e, s, m, k) && (m, t) in e
    ensures ReachesIn(e, s, t, k + 1) && Reaches(e, s, t)
  {
    var w :| WalkFromTo(e, w, s, m) && |w| == k + 1;
    assert WalkFromTo(e, w + [t], s, t);
  }

  lemma ReachesExtend(e: Edges, s: Id, m: Id, t: Id)
    requires Reaches(e, s, m) && (m, t) in e
    ensures Reaches(e, s, t)
  {
    var w :| WalkFromTo(e, w, s, m);
    assert WalkFromTo(e, w + [t], s, t);
  }

  lemma Join(e: Edges, u: seq<Id>, v: seq<Id>)
    requires IsWalk(e, u) && IsWalk(e, v) && u[|u| - 1] == v[0]
    ensures IsWalk(e, u + v[1..])
    ensures (u + v[1..])[0] == u[0]
    ensures (u + v[1..])[|u| + |v| - 2] == v[|v| - 1]
  {
    var w := u + v[1..];
    forall i, j | 0 <= i && j == i + 1 && j < |w| ensures (w[i], w[j]) in e {
      if j < |u| {
        assert w[i] == u[i] && w[j] == u[j];
      } else {
        assert w[j] == v[j - |u| + 1];
        assert w[i] == v[i - |u| + 1];
      }
    }
  }

  lemma ReachesTrans(e: Edges, a: Id, b: Id, c: Id)
    requires Reaches(e, a, b) && Reaches(e, b, c)
    ensures Reaches(e, a, c)
  {
    var u :| WalkFromTo(e, u, a, b);
    var v :| WalkFromTo(e, v, b, c);
    Join(e, u, v);
    assert WalkFromTo(e, u + v[1..], a, c);
  }

  /** A set that contains s and is closed under the edges contains everything s reaches. */
  lemma {:induction false} ClosedContains(e: Edges, s: set<Id>, w: seq<Id>)
    requires forall a, b :: a in s && (a, b) in e ==> b in s
    requires IsWalk(e, w) && w[0] in s
    ensures forall i :: 0 <= i < |w| ==> w[i] in s
    decreases |w|
  {
    if |w| > 1 {
      var n := |w| - 1;
      ClosedContains(e, s, w[..n]);
      assert w[..n][n - 1] in s && (w[n - 1], w[n]) in e;
    }
  }

  /** Popping the last node off a repetition-free walk. */
  lemma PopWalk(e: Edges, path: seq<Id>, n: Id)
    requires Distinct(path + [n]) && IsWalk(e, path + [n])
    ensures Distinct(path) && n !in path
    ensures path != [] ==> IsWalk(e, path) && path[0] == (path + [n])[0]
  {
    var stack := path + [n];
    assert path == stack[..|path|];
    assert stack[|path|] == n;
    assert forall i :: 0 <= i < |path| ==> stack[i] == path[i];
  }

  // ---------- cycles ----------

  /** A closed walk with at least one edge. */
  ghost predicate IsCycle(e: Edges, w: seq<Id>) {
    IsWalk(e, w) && |w| >= 2 && w[0] == w[|w| - 1]
  }

  ghost predicate Acyclic(e: Edges) {
    forall w :: !IsCycle(e, w)
  }

  /** No cycle can be reached from s. */
  ghost predicate AcyclicFrom(e: Edges, s: Id) {
    forall w :: IsCycle(e, w) ==> !Reaches(e, s, w[0])
  }

  /** A walk that meets a node twice contains a cycle starting there. */
  lemma CycleInWalk(e: Edges, w: seq<Id>, i: nat, j: nat)
    requires IsWalk(e, w) && i < j < |w| && w[i] == w[j]
    ensures IsCycle(e, w[i..j + 1])
  {}

  /** In an acyclic graph walks never repeat a node. */
  lemma AcyclicWalkDistinct(e: Edges, w: seq<Id>)
    requires IsWalk(e, w)
    requires forall c :: IsCycle(e, c) ==> !Reaches(e, w[0], c[0])
    ensures Distinct(w)
  {
    forall i, j | 0 <= i < j < |w| ensures w[i] != w[j] {
      if w[i] == w[j] {
        CycleInWalk(e, w, i, j);
        assert WalkFromTo(e, w[..i + 1], w[0], w[i]);
      }
    }
  }

  /** Cutting out repetitions: whatever is reachable is reachable by a repetition-free walk. */
  lemma {:induction false} SimpleWalk(e: Edges, w: seq<Id>) returns (v: seq<Id>)
    requires IsWalk(e, w)
    ensures WalkFromTo(e, v, w[0], w[|w| - 1]) && Distinct(v) && |v| <= |w|
    ensures forall x :: x in v ==> x in w
    decreases |w|
  {
    if Distinct(w) {
      v := w;
    } else {
      var i, j :| 0 <= i < j < |w| && w[i] == w[j];
      var u := w[..i] + w[j..];
      forall a, b | 0 <= a && b == a + 1 && b < |u| ensures (u[a], u[b]) in e {
        if b < i {
          assert u[a] == w[a] && u[b] == w[b];
        } else if b == i {
          assert u[a] == w[a] && u[b] == w[j] == w[i];
        } else {
          assert u[a] == w[a - i + j] && u[b] == w[b - i + j];
        }
      }
      v := SimpleWalk(e, u);
    }
  }

  // ---------- dependency-first orders ----------

  /** order lists nodes once each and every successor of a listed node stands before it. */
  ghost predicate DependenciesFirst(e: Edges, order: seq<Id>) {
    Distinct(order) &&
    forall i, b :: 0 <= i < |order| && (order[i], b) in e ==> b in order[..i]
  }

  lemma DependenciesFirstExtend(e: Edges, order: seq<Id>, n: Id)
    requires DependenciesFirst(e, order) && n !in order
    requires forall b :: (n, b) in e ==> b in order
    ensures DependenciesFirst(e, order + [n])
  {
    var next := order + [n];
    forall i, b | 0 <= i < |next| && (next[i], b) in e ensures b in next[..i] {
      if i < |order| {
        assert b in order[..i] && order[..i] == next[..i];
      } else {
        assert next[..i] == order;
      }
    }
  }

  /** Along a walk the positions in a dependencies-first order strictly fall. */
  lemma {:induction false} OrderFalls(e: Edges, order: seq<Id>, w: seq<Id>, p: nat) returns (q: nat)
    requires DependenciesFirst(e, order) && IsWalk(e, w)
    requires p < |order| && order[p] == w[0]
    ensures q <= p && order[q] == w[|w| - 1]
    ensures |w| > 1 ==> q < p
    decreases |w|
  {
    if |w| == 1 {
      q := p;
    } else {
      assert (w[0], w[1]) in e;
      assert w[1] in order[..p];
      var r :| 0 <= r < p && order[..p][r] == w[1];
      q := OrderFalls(e, order, w[1..], r);
    }
  }

  /** A dependencies-first order is closed under reachability and meets no cycle. */
  lemma DependenciesFirstSound(e: Edges, order: seq<Id>, s: Id)
    requires DependenciesFirst(e, order) && s in order
    ensures forall t :: Reaches(e, s, t) ==> t in order
    ensures AcyclicFrom(e, s)
  {
    forall t | Reaches(e, s, t) ensures t in order {
      var w :| WalkFromTo(e, w, s, t);
      var p :| 0 <= p < |order| && order[p] == s;
      var q := OrderFalls(e, order, w, p);
    }
    forall c | IsCycle(e, c) ensures !Reaches(e, s, c[0]) {
      if Reaches(e, s, c[0]) {
        assert c[0] in order;
        var p :| 0 <= p < |order| && order[p] == c[0];
        var q := OrderFalls(e, order, c, p);
      }
    }
  }
}
