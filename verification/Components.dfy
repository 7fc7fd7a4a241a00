/** The connected components of knowledge_graph/platform.py's _components and the degree counts
    of its analytics, over the undirected reading of the edges. */
module Components {
  import opened Graphs
  import opened Sorting

  /** An edge as its source and target. */
  type Pair = (Id, Id)

  /** Every edge in both directions. */
  function Undirected(pairs: seq<Pair>): (e: Edges)
    ensures forall a, b :: (a, b) in e <==> (a, b) in pairs || (b, a) in pairs
  {
    (set p | p in pairs) + set p | p in pairs :: (p.1, p.0)
  }

  function Ends(pairs: seq<Pair>): (s: set<Id>)
    ensures forall n :: n in s <==> exists p :: p in pairs && (p.0 == n || p.1 == n)
  {
    (set p | p in pairs :: p.0) + (set p | p in pairs :: p.1)
  }

  ghost predicate Symmetric(e: Edges) {
    forall a, b :: (a, b) in e ==> (b, a) in e
  }

  lemma {:induction false} Backwards(e: Edges, w: seq<Id>)
    requires Symmetric(e) && IsWalk(e, w)
    ensures Reaches(e, w[|w| - 1], w[0])
    decreases |w|
  {
    var k := |w| - 1;
    if k == 0 {
      ReachesSelf(e, w[0]);
    } else {
      Backwards(e, w[..k]);
      var u :| WalkFromTo(e, u, w[k - 1], w[0]);
      assert (w[k - 1], w[k]) in e;
      Join(e, [w[k], w[k - 1]], u);
      assert WalkFromTo(e, [w[k], w[k - 1]] + u[1..], w[k], w[0]);
    }
  }

  /** A closed set reached from one root is a whole connectivity class. */
  ghost predicate IsClass(e: Edges, component: set<Id>) {
    forall a, b :: a in component ==> (b in component <==> Reaches(e, a, b))
  }

  lemma ClassFromRoot(e: Edges, root: Id, component: set<Id>)
    requires Symmetric(e) && root in component
    requires forall c :: c in component ==> Reaches(e, root, c)
    requires forall a, b :: a in component && (a, b) in e ==> b in component
    ensures IsClass(e, component)
  {
    forall a, b | a in component ensures b in component <==> Reaches(e, a, b) {
      if b in component {
        var w :| WalkFromTo(e, w, root, a);
        Backwards(e, w);
        ReachesTrans(e, a, root, b);
      }
      if Reaches(e, a, b) {
        var w :| WalkFromTo(e, w, a, b);
        ClosedContains(e, component, w);
      }
    }
  }

  /** The elements of a set in some order. */
  method Listing(s: set<Id>) returns (r: seq<Id>)
    ensures Distinct(r) && Elements(r) == s
  {
    r := [];
    var left := s;
    while left != {}
      invariant Distinct(r) && left <= s && Elements(r) == s - left
      decreases left
    {
      var x :| x in left;
      DistinctSnoc(r, x);
      r := r + [x];
      left := left - {x};
    }
  }

  method SortedListing(s: set<Id>) returns (r: seq<Id>)
    ensures Distinct(r) && Elements(r) == s && SortedBy(r, StringLeq)
  {
    var listing := Listing(s);
    r := SortBy(listing, StringLeq);
    SameElements(r, listing);
    StringOrder();
    SortSorted(listing, StringLeq);
    DistinctIff(listing);
    DistinctIff(r);
    assert Elements(r) == Elements(listing);
  }

  /** adjacency[a] is the set of a's neighbours. */
  ghost predicate Adjacent(e: Edges, adjacency: map<Id, set<Id>>) {
    forall a, b :: (a, b) in e <==> a in adjacency && b in adjacency[a]
  }

  /** adjacency.setdefault(a, set()).add(b) */
  function Link(adjacency: map<Id, set<Id>>, a: Id, b: Id): map<Id, set<Id>> {
    adjacency[a := (if a in adjacency then adjacency[a] else {}) + {b}]
  }

  lemma LinkAdjacent(e: Edges, adjacency: map<Id, set<Id>>, a: Id, b: Id)
    requires Adjacent(e, adjacency)
    ensures Adjacent(e + {(a, b)}, Link(adjacency, a, b))
  {}

  method BuildAdjacency(nodes: set<Id>, pairs: seq<Pair>) returns (adjacency: map<Id, set<Id>>)
    ensures adjacency.Keys == nodes + Ends(pairs)
    ensures Adjacent(Undirected(pairs), adjacency)
  {
    hide Adjacent;
    adjacency := map n | n in nodes :: {};
    assert Adjacent(Undirected(pairs[..0]), adjacency) by { NoLinks(nodes); }
    for k := 0 to |pairs|
      invariant adjacency.Keys == nodes + Ends(pairs[..k])
      invariant Adjacent(Undirected(pairs[..k]), adjacency)
    {
      var s, t := pairs[k].0, pairs[k].1;
      NextPair(pairs, k);
      LinkAdjacent(Undirected(pairs[..k]), adjacency, s, t);
      LinkAdjacent(Undirected(pairs[..k]) + {(s, t)}, Link(adjacency, s, t), t, s);
      adjacency := Link(Link(adjacency, s, t), t, s);
    }
    assert pairs[..|pairs|] == pairs;
  }

  lemma NextPair(pairs: seq<Pair>, k: nat)
    requires k < |pairs|
    ensures Undirected(pairs[..k + 1]) == Undirected(pairs[..k]) + {(pairs[k].0, pairs[k].1)} +
        {(pairs[k].1, pairs[k].0)}
    ensures Ends(pairs[..k + 1]) == Ends(pairs[..k]) + {pairs[k].0, pairs[k].1}
  {
    assert pairs[..k + 1] == pairs[..k] + [pairs[k]];
  }

  lemma NoLinks(nodes: set<Id>)
    ensures Adjacent(Undirected([]), map n | n in nodes :: {})
  {}

  /** A growing component: everything found hangs on the root, and what is left of the world is
      either unseen or found; only queued nodes may still have unseen neighbours. */
  ghost predicate Growing(e: Edges, world: set<Id>, root: Id, component: set<Id>, unseen: set<Id>, queue: seq<Id>) {
    && root in component && component + unseen == world && component !! unseen
    && (forall c :: c in component ==> Reaches(e, root, c))
    && (forall q :: q in queue ==> q in component)
    && (forall a, b :: a in component && (a, b) in e && b in unseen ==> a in queue)
  }

  lemma Grow(e: Edges, world: set<Id>, root: Id, component: set<Id>, unseen: set<Id>, queue: seq<Id>,
             found: set<Id>, listing: seq<Id>)
    requires Growing(e, world, root, component, unseen, queue) && queue != []
    requires forall b :: b in found <==> b in unseen && (queue[0], b) in e
    requires Elements(listing) == found
    ensures Growing(e, world, root, component + found, unseen - found, queue[1..] + listing)
  {
    assert queue == [queue[0]] + queue[1..];
    forall c | c in found ensures Reaches(e, root, c) {
      ReachesExtend(e, root, queue[0], c);
    }
    forall a, b | a in component + found && (a, b) in e && b in unseen - found ensures a in queue[1..] + listing {
      if a in found {
        assert a in listing;
      } else {
        assert a != queue[0] && a in queue;
      }
    }
  }

  /** One component, grown from root out of the unseen nodes of a set closed under the edges. */
  method Component(ghost e: Edges, adjacency: map<Id, set<Id>>, root: Id, world: set<Id>)
    returns (component: set<Id>, unseen: set<Id>)
    requires Symmetric(e) && Adjacent(e, adjacency) && world <= adjacency.Keys && root in world
    requires forall a, b :: a in world && (a, b) in e ==> b in world
    ensures component + unseen == world && component !! unseen && root in component
    ensures IsClass(e, component)
    ensures forall a, b :: a in unseen && (a, b) in e ==> b in unseen
  {
    hide Growing;
    unseen, component := world - {root}, {root};
    var queue := [root];
    GrowInit(e, world, root);
    while queue != []
      invariant Growing(e, world, root, component, unseen, queue)
      decreases unseen, |queue|
    {
      GrowKnown(e, world, root, component, unseen, queue);
      var neighbors := adjacency[queue[0]] * unseen;
      var listing := Listing(neighbors);
      Grow(e, world, root, component, unseen, queue, neighbors, listing);
      DistinctIff(listing);
      if neighbors != {} {
        Shrinks(unseen, neighbors);
      }
      unseen := unseen - neighbors;
      component := component + neighbors;
      queue := queue[1..] + listing;
    }
    Grown(e, world, root, component, unseen);
  }

  lemma Shrinks(unseen: set<Id>, found: set<Id>)
    requires found <= unseen && found != {}
    ensures unseen - found < unseen
  {
    var x :| x in found;
    assert x in unseen && x !in unseen - found;
  }

  lemma GrowInit(e: Edges, world: set<Id>, root: Id)
    requires root in world
    ensures Growing(e, world, root, {root}, world - {root}, [root])
  {
    ReachesSelf(e, root);
  }

  lemma GrowKnown(e: Edges, world: set<Id>, root: Id, component: set<Id>, unseen: set<Id>, queue: seq<Id>)
    requires Growing(e, world, root, component, unseen, queue) && queue != []
    ensures queue[0] in world && unseen <= world
  {
    assert queue[0] in queue;
  }

  lemma Grown(e: Edges, world: set<Id>, root: Id, component: set<Id>, unseen: set<Id>)
    requires Growing(e, world, root, component, unseen, []) && Symmetric(e)
    requires forall a, b :: a in world && (a, b) in e ==> b in world
    ensures component + unseen == world && component !! unseen && root in component
    ensures IsClass(e, component)
    ensures forall a, b :: a in unseen && (a, b) in e ==> b in unseen
  {
    forall a, b | a in component && (a, b) in e ensures b in component {
      assert a in world;
    }
    ClassFromRoot(e, root, component);
  }

  /** The result: sorted repetition-free lists, pairwise disjoint, covering all nodes, each one a
      connectivity class. */
  ghost predicate IsPartition(e: Edges, nodes: set<Id>, components: seq<seq<Id>>) {
    && (forall c :: c in components ==> Distinct(c) && SortedBy(c, StringLeq) && IsClass(e, Elements(c)))
    && (forall i, j :: 0 <= i < j < |components| ==> Elements(components[i]) !! Elements(components[j]))
    && (forall n :: n in nodes <==> exists i :: 0 <= i < |components| && n in components[i])
  }

  lemma AddComponent(e: Edges, nodes: set<Id>, components: seq<seq<Id>>, c: seq<Id>)
    requires IsPartition(e, nodes, components)
    requires Distinct(c) && SortedBy(c, StringLeq) && IsClass(e, Elements(c)) && Elements(c) !! nodes
    ensures IsPartition(e, nodes + Elements(c), components + [c])
  {
    var r := components + [c];
    forall i | 0 <= i < |components| ensures Elements(components[i]) !! Elements(c) {
      forall n | n in components[i] ensures n !in Elements(c) {
        assert n in nodes;
      }
    }
    forall n | n in nodes + Elements(c) ensures exists i :: 0 <= i < |r| && n in r[i] {
      if n in nodes {
        var i :| 0 <= i < |components| && n in components[i];
        assert n in r[i];
      } else {
        assert n in r[|components|];
      }
    }
  }

  /** Whatever root is picked each time, two nodes share a component exactly when an undirected
      path joins them. */
  method ConnectedComponents(nodes: set<Id>, pairs: seq<Pair>) returns (components: seq<seq<Id>>)
    ensures IsPartition(Undirected(pairs), nodes + Ends(pairs), components)
  {
    hide IsPartition, IsClass;
    ghost var e := Undirected(pairs);
    var adjacency := BuildAdjacency(nodes, pairs);
    components := [];
    var unseen := adjacency.Keys;
    NoComponents(e);
    assert adjacency.Keys - unseen == {};
    assert forall a, b :: (a, b) in e ==> b in Ends(pairs);
    while unseen != {}
      invariant unseen <= adjacency.Keys
      invariant IsPartition(e, adjacency.Keys - unseen, components)
      invariant forall a, b :: a in unseen && (a, b) in e ==> b in unseen
      decreases unseen
    {
      var root :| root in unseen;
      ghost var seen := adjacency.Keys - unseen;
      var component, rest := Component(e, adjacency, root, unseen);
      var sorted := SortedListing(component);
      AddComponent(e, seen, components, sorted);
      components := components + [sorted];
      assert seen + component == adjacency.Keys - rest;
      unseen := rest;
    }
    assert adjacency.Keys - unseen == nodes + Ends(pairs);
  }

  lemma NoComponents(e: Edges)
    ensures IsPartition(e, {}, [])
  {}

  /** The reader's form of the result. */
  lemma SameComponentIffConnected(e: Edges, nodes: set<Id>, components: seq<seq<Id>>, a: Id, b: Id)
    requires IsPartition(e, nodes, components) && a in nodes
    ensures (exists c :: c in components && a in c && b in c) <==> Reaches(e, a, b)
  {
    var i :| 0 <= i < |components| && a in components[i];
    assert components[i] in components && a in Elements(components[i]);
    forall c | c in components && a in c ensures b in c <==> Reaches(e, a, b) {
      assert a in Elements(c);
    }
  }

  // ---------- degrees ----------

  function Ones(p: bool): nat { if p then 1 else 0 }

  /** The two counters of analytics: outgoing and incoming ends at n. */
  function Degree(pairs: seq<Pair>, n: Id): nat {
    if pairs == [] then 0
    else
      var last := pairs[|pairs| - 1];
      Degree(pairs[..|pairs| - 1], n) + Ones(last.0 == n) + Ones(last.1 == n)
  }

  /** The degree scaled by the number of other nodes, max(1, size - 1). */
  function Centrality(pairs: seq<Pair>, n: Id, size: nat): real {
    Degree(pairs, n) as real / (if size >= 2 then size - 1 else 1) as real
  }

  function TotalDegree(pairs: seq<Pair>, nodes: seq<Id>): nat {
    if nodes == [] then 0 else TotalDegree(pairs, nodes[..|nodes| - 1]) + Degree(pairs, nodes[|nodes| - 1])
  }

  function Occurrences(nodes: seq<Id>, n: Id): nat {
    if nodes == [] then 0 else Occurrences(nodes[..|nodes| - 1], n) + Ones(nodes[|nodes| - 1] == n)
  }

  lemma {:induction false} OccursOnce(nodes: seq<Id>, n: Id)
    requires Distinct(nodes)
    ensures Occurrences(nodes, n) == Ones(n in nodes)
  {
    if nodes != [] {
      var k := |nodes| - 1;
      OccursOnce(nodes[..k], n);
      assert nodes == nodes[..k] + [nodes[k]];
    }
  }

  lemma {:induction false} TotalGrows(pairs: seq<Pair>, last: Pair, nodes: seq<Id>)
    ensures TotalDegree(pairs + [last], nodes) ==
            TotalDegree(pairs, nodes) + Occurrences(nodes, last.0) + Occurrences(nodes, last.1)
  {
    assert (pairs + [last])[..|pairs|] == pairs;
    if nodes != [] {
      TotalGrows(pairs, last, nodes[..|nodes| - 1]);
    }
  }

  lemma {:induction false} NoDegree(nodes: seq<Id>)
    ensures TotalDegree([], nodes) == 0
  {
    if nodes != [] {
      NoDegree(nodes[..|nodes| - 1]);
    }
  }

  /** Handshake: over nodes that hold all ends, the degrees sum to twice the number of edges. */
  lemma {:induction false} Handshake(pairs: seq<Pair>, nodes: seq<Id>)
    requires Distinct(nodes) && forall p :: p in pairs ==> p.0 in nodes && p.1 in nodes
    ensures TotalDegree(pairs, nodes) == 2 * |pairs|
  {
    if pairs == [] {
      NoDegree(nodes);
    } else {
      var k := |pairs| - 1;
      Handshake(pairs[..k], nodes);
      TotalGrows(pairs[..k], pairs[k], nodes);
      assert pairs[..k] + [pairs[k]] == pairs;
      OccursOnce(nodes, pairs[k].0);
      OccursOnce(nodes, pairs[k].1);
    }
  }
}
