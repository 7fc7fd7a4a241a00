/** The two frontier disciplines of knowledge_graph/platform.py's traverse, as invariants of a
    loop that marks nodes visited when they leave the frontier. */
module Traversal {
  import opened Graphs

  /** A frontier entry: a node and the depth it was met at. */
  datatype Entry = Entry(node: Id, depth: nat)

  function Pushed(neighbors: seq<Id>, depth: nat): (r: seq<Entry>)
    ensures |r| == |neighbors|
    ensures forall i :: 0 <= i < |r| ==> r[i] == Entry(neighbors[i], depth)
  {
    seq(|neighbors|, i requires 0 <= i < |neighbors| => Entry(neighbors[i], depth))
  }

  lemma PushedMembers(neighbors: seq<Id>, depth: nat)
    ensures forall f :: f in Pushed(neighbors, depth) <==> f.node in neighbors && f.depth == depth
  {
    forall f: Entry | f.node in neighbors && f.depth == depth ensures f in Pushed(neighbors, depth) {
      var i :| 0 <= i < |neighbors| && neighbors[i] == f.node;
      assert Pushed(neighbors, depth)[i] == f;
    }
  }

  /** neighbors lists the targets of node. */
  ghost predicate Neighbors(e: Edges, node: Id, neighbors: seq<Id>) {
    forall m :: m in neighbors <==> (node, m) in e
  }

  ghost predicate WithinDepth(e: Edges, start: Id, n: Id, maxDepth: nat) {
    exists k: nat :: k <= maxDepth && ReachesIn(e, start, n, k)
  }

  // ---------- results ----------

  /** Exactly the nodes at distance at most maxDepth, each once, nearer ones first. */
  ghost predicate BreadthFirstOrder(e: Edges, start: Id, maxDepth: nat, visit: seq<Id>) {
    && Distinct(visit)
    && (forall n :: n in visit <==> WithinDepth(e, start, n, maxDepth))
    && (forall i, j, a: nat, b: nat ::
          0 <= i < j < |visit| && AtDistance(e, start, visit[i], a) && AtDistance(e, start, visit[j], b) ==> a <= b)
    && (forall n :: n in visit ==> exists k: nat :: k <= maxDepth && AtDistance(e, start, n, k))
  }

  /** Only nodes within the bound, each once; all of them when the bound is tight or generous,
      and then under a generous bound everything reachable. */
  ghost predicate DepthFirstOrder(e: Edges, start: Id, maxDepth: nat, known: set<Id>, visit: seq<Id>) {
    && Distinct(visit)
    && (forall n :: n in visit ==> WithinDepth(e, start, n, maxDepth))
    && (maxDepth <= 1 || maxDepth >= |known| - 1 ==> forall n :: WithinDepth(e, start, n, maxDepth) ==> n in visit)
    && (maxDepth >= |known| - 1 ==> forall n :: n in visit <==> Reaches(e, start, n))
  }

  // ---------- common invariant ----------

  /** level records the depth each visited node was visited at. */
  ghost predicate Sound(e: Edges, start: Id, maxDepth: nat, known: set<Id>,
                        frontier: seq<Entry>, visit: seq<Id>, level: map<Id, nat>) {
    && Distinct(visit) && (forall n :: n in level <==> n in visit)
    && (forall n :: n in visit ==> n in known && level[n] <= maxDepth && ReachesIn(e, start, n, level[n]))
    && (forall f :: f in frontier ==> f.node in known && ReachesIn(e, start, f.node, f.depth))
  }

  lemma SoundInit(e: Edges, start: Id, maxDepth: nat, known: set<Id>)
    requires start in known
    ensures Sound(e, start, maxDepth, known, [Entry(start, 0)], [], map[])
  {
    ReachesSelf(e, start);
  }

  lemma SoundVisit(e: Edges, start: Id, maxDepth: nat, known: set<Id>, rest: seq<Entry>, f: Entry,
                   visit: seq<Id>, level: map<Id, nat>, frontier: seq<Entry>, neighbors: seq<Id>)
    requires Sound(e, start, maxDepth, known, frontier, visit, level)
    requires f in frontier && forall x :: x in rest ==> x in frontier
    requires f.node !in visit && f.depth <= maxDepth && Neighbors(e, f.node, neighbors)
    requires forall a, b :: (a, b) in e ==> b in known
    ensures Sound(e, start, maxDepth, known, rest + Pushed(neighbors, f.depth + 1), visit + [f.node],
        level[f.node := f.depth])
    ensures |visit| < |known|
  {
    DistinctSnoc(visit, f.node);
    DistinctFits(visit + [f.node], known);
    PushedMembers(neighbors, f.depth + 1);
    forall m | m in neighbors ensures m in known && ReachesIn(e, start, m, f.depth + 1) {
      assert (f.node, m) in e;
      ReachesStep(e, start, f.node, m, f.depth);
    }
  }

  // ---------- breadth first ----------

  /** Depths in the frontier rise by at most one in all, nothing visited is deeper than it, and
      every target of a node above the bound is visited early enough or waiting. */
  ghost predicate Wave(e: Edges, start: Id, maxDepth: nat, frontier: seq<Entry>, visit: seq<Id>, level: map<Id, nat>) {
    NearestFirst(frontier, visit, level) && Coverage(e, start, maxDepth, frontier, visit, level)
  }

  ghost predicate NearestFirst(frontier: seq<Entry>, visit: seq<Id>, level: map<Id, nat>) {
    && RisesByOne(frontier)
    && (forall n :: n in visit ==> n in level && forall f :: f in frontier ==> level[n] <= f.depth)
    && (forall i, j :: 0 <= i < j < |visit| ==> level[visit[i]] <= level[visit[j]])
  }

  ghost predicate Coverage(e: Edges, start: Id, maxDepth: nat, frontier: seq<Entry>, visit: seq<Id>,
                           level: map<Id, nat>) {
    && Covered(frontier, visit, level, start, 0)
    && (forall n, m :: n in visit && n in level && level[n] < maxDepth && (n, m) in e ==>
          Covered(frontier, visit, level, m, level[n] + 1))
  }

  ghost predicate Covered(frontier: seq<Entry>, visit: seq<Id>, level: map<Id, nat>, n: Id, depth: nat)
  {
    (n in visit && n in level && level[n] <= depth) || Entry(n, depth) in frontier
  }

  ghost predicate RisesByOne(frontier: seq<Entry>) {
    forall i, j :: 0 <= i < j < |frontier| ==> frontier[i].depth <= frontier[j].depth <= frontier[i].depth + 1
  }

  lemma PushRises(frontier: seq<Entry>, neighbors: seq<Id>)
    requires RisesByOne(frontier) && frontier != []
    ensures RisesByOne(frontier[1..] + Pushed(neighbors, frontier[0].depth + 1))
    ensures forall f :: f in frontier[1..] + Pushed(neighbors, frontier[0].depth + 1) ==> f.depth >= frontier[0].depth
  {
    var f, rest, next := frontier[0], frontier[1..], Pushed(neighbors, frontier[0].depth + 1);
    var r := rest + next;
    forall i | 0 <= i < |r| ensures f.depth <= r[i].depth <= f.depth + 1 && (i < |rest| ==> r[i] == frontier[i + 1]) {
      if i >= |rest| { assert r[i] == next[i - |rest|]; }
    }
  }

  lemma WaveInit(e: Edges, start: Id, maxDepth: nat)
    ensures Wave(e, start, maxDepth, [Entry(start, 0)], [], map[])
  {
    assert Entry(start, 0) in [Entry(start, 0)];
  }

  lemma WaveSkip(e: Edges, start: Id, maxDepth: nat, frontier: seq<Entry>, visit: seq<Id>, level: map<Id, nat>)
    requires Wave(e, start, maxDepth, frontier, visit, level) && frontier != []
    requires frontier[0].node in visit || frontier[0].depth > maxDepth
    ensures Wave(e, start, maxDepth, frontier[1..], visit, level)
  {
    var rest := frontier[1..];
    forall n, depth: nat | Covered(frontier, visit, level, n, depth) && depth <= maxDepth
      ensures Covered(rest, visit, level, n, depth)
    {
      if Entry(n, depth) in frontier && Entry(n, depth) !in rest {
        assert frontier[0] == Entry(n, depth);
      }
    }
  }

  lemma WaveVisit(e: Edges, start: Id, maxDepth: nat, frontier: seq<Entry>, visit: seq<Id>, level: map<Id, nat>,
                  neighbors: seq<Id>)
    requires Wave(e, start, maxDepth, frontier, visit, level) && frontier != []
    requires frontier[0].node !in visit && frontier[0].depth <= maxDepth
    requires Neighbors(e, frontier[0].node, neighbors)
    ensures Wave(e, start, maxDepth, frontier[1..] + Pushed(neighbors, frontier[0].depth + 1),
                 visit + [frontier[0].node], level[frontier[0].node := frontier[0].depth])
  {
    NearestVisit(frontier, visit, level, neighbors);
    CoverageVisit(e, start, maxDepth, frontier, visit, level, neighbors);
  }

  lemma NearestVisit(frontier: seq<Entry>, visit: seq<Id>, level: map<Id, nat>, neighbors: seq<Id>)
    requires NearestFirst(frontier, visit, level) && frontier != [] && frontier[0].node !in visit
    ensures NearestFirst(frontier[1..] + Pushed(neighbors, frontier[0].depth + 1),
                         visit + [frontier[0].node], level[frontier[0].node := frontier[0].depth])
  {
    var f := frontier[0];
    PushRises(frontier, neighbors);
    hide RisesByOne;
    var visit', level' := visit + [f.node], level[f.node := f.depth];
    forall n | n in visit' ensures level'[n] <= f.depth {}
  }

  lemma CoverageVisit(e: Edges, start: Id, maxDepth: nat, frontier: seq<Entry>, visit: seq<Id>, level: map<Id, nat>,
                      neighbors: seq<Id>)
    requires Coverage(e, start, maxDepth, frontier, visit, level) && frontier != []
    requires frontier[0].node !in visit
    requires Neighbors(e, frontier[0].node, neighbors)
    ensures Coverage(e, start, maxDepth, frontier[1..] + Pushed(neighbors, frontier[0].depth + 1),
                     visit + [frontier[0].node], level[frontier[0].node := frontier[0].depth])
  {
    var f := frontier[0];
    var rest, next := frontier[1..], Pushed(neighbors, f.depth + 1);
    var frontier', visit', level' := rest + next, visit + [f.node], level[f.node := f.depth];
    PushedMembers(neighbors, f.depth + 1);
    forall n, depth: nat | Covered(frontier, visit, level, n, depth)
      ensures Covered(frontier', visit', level', n, depth)
    {
      if Entry(n, depth) in frontier && Entry(n, depth) !in rest {
        assert Entry(n, depth) == f && f.node in visit';
      }
    }
    forall n, m | n in visit' && n in level' && level'[n] < maxDepth && (n, m) in e
      ensures Covered(frontier', visit', level', m, level'[n] + 1)
    {
      if n == f.node {
        assert Entry(m, f.depth + 1) in next;
      } else {
        assert Covered(frontier, visit, level, m, level[n] + 1);
      }
    }
  }

  /** With the frontier exhausted every walk within the bound ends at a node visited no deeper. */
  lemma {:induction false} WaveComplete(e: Edges, start: Id, maxDepth: nat, visit: seq<Id>, level: map<Id, nat>,
                                        w: seq<Id>)
    requires Wave(e, start, maxDepth, [], visit, level)
    requires IsWalk(e, w) && w[0] == start && |w| <= maxDepth + 1
    ensures w[|w| - 1] in visit && level[w[|w| - 1]] <= |w| - 1
    decreases |w|
  {
    assert Covered([], visit, level, start, 0);
    var n := |w| - 1;
    if n > 0 {
      WaveComplete(e, start, maxDepth, visit, level, w[..n]);
      assert (w[n - 1], w[n]) in e;
      assert Covered([], visit, level, w[n], level[w[n - 1]] + 1);
    }
  }

  lemma WaveDone(e: Edges, start: Id, maxDepth: nat, known: set<Id>, visit: seq<Id>, level: map<Id, nat>)
    requires Sound(e, start, maxDepth, known, [], visit, level) && Wave(e, start, maxDepth, [], visit, level)
    ensures BreadthFirstOrder(e, start, maxDepth, visit)
  {
    forall n | n in visit ensures AtDistance(e, start, n, level[n]) {
      forall w | WalkFromTo(e, w, start, n) ensures level[n] + 1 <= |w| {
        if |w| <= maxDepth {
          WaveComplete(e, start, maxDepth, visit, level, w);
        }
      }
    }
    forall n | WithinDepth(e, start, n, maxDepth) ensures n in visit {
      var k: nat :| k <= maxDepth && ReachesIn(e, start, n, k);
      var w :| WalkFromTo(e, w, start, n) && |w| == k + 1;
      WaveComplete(e, start, maxDepth, visit, level, w);
    }
    forall i, a: nat | 0 <= i < |visit| && AtDistance(e, start, visit[i], a) ensures a == level[visit[i]] {
      var w :| WalkFromTo(e, w, start, visit[i]) && |w| == a + 1;
      assert AtDistance(e, start, visit[i], level[visit[i]]);
      var v :| WalkFromTo(e, v, start, visit[i]) && |v| == level[visit[i]] + 1;
    }
  }

  // ---------- depth first ----------

  /** With a generous bound nothing is ever dropped: depths stay at most the number of visited
      nodes, and every target of a visited node is visited or waiting. */
  ghost predicate Deep(e: Edges, start: Id, frontier: seq<Entry>, visit: seq<Id>) {
    && (forall f :: f in frontier ==> f.depth <= |visit|)
    && Waiting(frontier, visit, start)
    && (forall n, m :: n in visit && (n, m) in e ==> Waiting(frontier, visit, m))
  }

  ghost predicate Waiting(frontier: seq<Entry>, visit: seq<Id>, n: Id) {
    n in visit || exists f :: f in frontier && f.node == n
  }

  lemma DeepInit(e: Edges, start: Id)
    ensures Deep(e, start, [Entry(start, 0)], [])
  {
    assert Entry(start, 0) in [Entry(start, 0)];
  }

  /** Under a generous bound an unvisited frontier node is never too deep. */
  lemma DeepInBound(e: Edges, start: Id, maxDepth: nat, known: set<Id>,
                    frontier: seq<Entry>, visit: seq<Id>, level: map<Id, nat>)
    requires Sound(e, start, maxDepth, known, frontier, visit, level) && Deep(e, start, frontier, visit)
    requires frontier != [] && maxDepth >= |known| - 1
    ensures frontier[|frontier| - 1].node in visit || frontier[|frontier| - 1].depth <= maxDepth
  {
    var f := frontier[|frontier| - 1];
    assert f in frontier;
    if f.node !in visit {
      DistinctSnoc(visit, f.node);
      DistinctFits(visit + [f.node], known);
    }
  }

  lemma DeepSkip(e: Edges, start: Id, frontier: seq<Entry>, visit: seq<Id>)
    requires Deep(e, start, frontier, visit) && frontier != []
    requires frontier[|frontier| - 1].node in visit
    ensures Deep(e, start, frontier[..|frontier| - 1], visit)
  {
    var rest := frontier[..|frontier| - 1];
    assert frontier == rest + [frontier[|frontier| - 1]];
    forall n | Waiting(frontier, visit, n) ensures Waiting(rest, visit, n) {
      if n !in visit {
        var f :| f in frontier && f.node == n;
        assert f in rest;
      }
    }
  }

  lemma DeepVisit(e: Edges, start: Id, frontier: seq<Entry>, visit: seq<Id>, neighbors: seq<Id>)
    requires Deep(e, start, frontier, visit) && frontier != []
    requires Neighbors(e, frontier[|frontier| - 1].node, neighbors)
    ensures var f := frontier[|frontier| - 1];
            Deep(e, start, frontier[..|frontier| - 1] + Pushed(neighbors, f.depth + 1), visit + [f.node])
  {
    var f := frontier[|frontier| - 1];
    var rest, next := frontier[..|frontier| - 1], Pushed(neighbors, f.depth + 1);
    var frontier', visit' := rest + next, visit + [f.node];
    assert frontier == rest + [f];
    PushedMembers(neighbors, f.depth + 1);
    forall n | Waiting(frontier, visit, n) ensures Waiting(frontier', visit', n) {
      if n !in visit {
        var x :| x in frontier && x.node == n;
        assert x == f || x in frontier';
      }
    }
    forall n, m | n in visit' && (n, m) in e ensures Waiting(frontier', visit', m) {
      if n == f.node {
        assert Entry(m, f.depth + 1) in frontier';
      } else {
        assert Waiting(frontier, visit, m);
      }
    }
  }

  lemma DeepDone(e: Edges, start: Id, maxDepth: nat, known: set<Id>, visit: seq<Id>, level: map<Id, nat>)
    requires Sound(e, start, maxDepth, known, [], visit, level)
    requires maxDepth >= |known| - 1 && Deep(e, start, [], visit)
    ensures forall n :: n in visit <==> Reaches(e, start, n)
  {
    assert Waiting([], visit, start);
    var s := Elements(visit);
    forall a, b | a in s && (a, b) in e ensures b in s {
      assert Waiting([], visit, b);
    }
    forall n ensures n in visit <==> Reaches(e, start, n) {
      if Reaches(e, start, n) {
        var w :| WalkFromTo(e, w, start, n);
        ClosedContains(e, s, w);
      }
    }
  }

  // ---------- depth first under a tight bound ----------

  /** Under a bound of at most one only the start and its targets matter: the start is visited
      first, and each target is visited or waits at depth one. */
  ghost predicate Shallow(e: Edges, start: Id, maxDepth: nat, frontier: seq<Entry>, visit: seq<Id>) {
    || (visit == [] && frontier == [Entry(start, 0)])
    || (start in visit && (maxDepth == 1 ==> forall m :: (start, m) in e ==> m in visit || Entry(m, 1) in frontier))
  }

  lemma ShallowSkip(e: Edges, start: Id, maxDepth: nat, frontier: seq<Entry>, visit: seq<Id>)
    requires Shallow(e, start, maxDepth, frontier, visit) && frontier != []
    requires frontier[|frontier| - 1].node in visit || frontier[|frontier| - 1].depth > maxDepth
    ensures Shallow(e, start, maxDepth, frontier[..|frontier| - 1], visit)
  {
    assert frontier == frontier[..|frontier| - 1] + [frontier[|frontier| - 1]];
  }

  lemma ShallowVisit(e: Edges, start: Id, maxDepth: nat, frontier: seq<Entry>, visit: seq<Id>, neighbors: seq<Id>)
    requires Shallow(e, start, maxDepth, frontier, visit) && frontier != []
    requires Neighbors(e, frontier[|frontier| - 1].node, neighbors)
    ensures var f := frontier[|frontier| - 1];
            Shallow(e, start, maxDepth, frontier[..|frontier| - 1] + Pushed(neighbors, f.depth + 1), visit + [f.node])
  {
    var f := frontier[|frontier| - 1];
    assert frontier == frontier[..|frontier| - 1] + [f];
    PushedMembers(neighbors, f.depth + 1);
  }

  lemma ShallowDone(e: Edges, start: Id, maxDepth: nat, visit: seq<Id>)
    requires Shallow(e, start, maxDepth, [], visit) && maxDepth <= 1
    ensures forall n :: WithinDepth(e, start, n, maxDepth) ==> n in visit
  {
    forall n | WithinDepth(e, start, n, maxDepth) ensures n in visit {
      var k: nat :| k <= maxDepth && ReachesIn(e, start, n, k);
      var w :| WalkFromTo(e, w, start, n) && |w| == k + 1;
      assert k == 1 ==> (w[0], w[1]) in e;
    }
  }

  // ---------- both strategies ----------

  /** Where the next entry is taken: from the left breadth first, from the right depth first. */
  function Next(breadth: bool, frontier: seq<Entry>): Entry
    requires frontier != []
  {
    if breadth then frontier[0] else frontier[|frontier| - 1]
  }

  function Rest(breadth: bool, frontier: seq<Entry>): (r: seq<Entry>)
    requires frontier != []
    ensures |r| == |frontier| - 1
  {
    if breadth then frontier[1..] else frontier[..|frontier| - 1]
  }

  lemma NextKnown(breadth: bool, known: set<Id>, frontier: seq<Entry>)
    requires frontier != [] && forall f :: f in frontier ==> f.node in known
    ensures Next(breadth, frontier).node in known
  {}

  ghost predicate Underway(breadth: bool, e: Edges, start: Id, maxDepth: nat, known: set<Id>,
                           frontier: seq<Entry>, visit: seq<Id>, level: map<Id, nat>) {
    && Sound(e, start, maxDepth, known, frontier, visit, level)
    && (breadth ==> Wave(e, start, maxDepth, frontier, visit, level))
    && (!breadth && maxDepth >= |known| - 1 ==> Deep(e, start, frontier, visit))
    && (!breadth ==> Shallow(e, start, maxDepth, frontier, visit))
  }

  lemma Start(breadth: bool, e: Edges, start: Id, maxDepth: nat, known: set<Id>)
    requires start in known
    ensures Underway(breadth, e, start, maxDepth, known, [Entry(start, 0)], [], map[])
  {
    SoundInit(e, start, maxDepth, known);
    WaveInit(e, start, maxDepth);
    DeepInit(e, start);
  }

  lemma Skip(breadth: bool, e: Edges, start: Id, maxDepth: nat, known: set<Id>,
             frontier: seq<Entry>, visit: seq<Id>, level: map<Id, nat>)
    requires Underway(breadth, e, start, maxDepth, known, frontier, visit, level) && frontier != []
    requires Next(breadth, frontier).node in visit || Next(breadth, frontier).depth > maxDepth
    ensures Underway(breadth, e, start, maxDepth, known, Rest(breadth, frontier), visit, level)
  {
    if breadth {
      WaveSkip(e, start, maxDepth, frontier, visit, level);
    } else {
      ShallowSkip(e, start, maxDepth, frontier, visit);
      if maxDepth >= |known| - 1 {
        DeepInBound(e, start, maxDepth, known, frontier, visit, level);
        DeepSkip(e, start, frontier, visit);
      }
    }
  }

  lemma Visit(breadth: bool, e: Edges, start: Id, maxDepth: nat, known: set<Id>,
              frontier: seq<Entry>, visit: seq<Id>, level: map<Id, nat>, neighbors: seq<Id>)
    requires Underway(breadth, e, start, maxDepth, known, frontier, visit, level) && frontier != []
    requires Next(breadth, frontier).node !in visit && Next(breadth, frontier).depth <= maxDepth
    requires Neighbors(e, Next(breadth, frontier).node, neighbors)
    requires forall a, b :: (a, b) in e ==> b in known
    ensures var next := Next(breadth, frontier);
            && next.node in known
            && Underway(breadth, e, start, maxDepth, known, Rest(breadth, frontier) + Pushed(neighbors, next.depth + 1),
                        visit + [next.node], level[next.node := next.depth])
  {
    hide Wave, Deep, Shallow;
    SoundVisit(e, start, maxDepth, known, Rest(breadth, frontier), Next(breadth, frontier), visit, level, frontier,
        neighbors);
    hide Sound;
    if breadth {
      WaveVisit(e, start, maxDepth, frontier, visit, level, neighbors);
    } else {
      ShallowVisit(e, start, maxDepth, frontier, visit, neighbors);
      if maxDepth >= |known| - 1 {
        DeepVisit(e, start, frontier, visit, neighbors);
      }
    }
  }

  lemma Finish(breadth: bool, e: Edges, start: Id, maxDepth: nat, known: set<Id>, visit: seq<Id>, level: map<Id, nat>)
    requires Underway(breadth, e, start, maxDepth, known, [], visit, level)
    ensures breadth ==> BreadthFirstOrder(e, start, maxDepth, visit)
    ensures !breadth ==> DepthFirstOrder(e, start, maxDepth, known, visit)
  {
    if breadth {
      WaveDone(e, start, maxDepth, known, visit, level);
    } else {
      if maxDepth <= 1 {
        ShallowDone(e, start, maxDepth, visit);
      }
      if maxDepth >= |known| - 1 {
        DeepDone(e, start, maxDepth, known, visit, level);
        forall n | WithinDepth(e, start, n, maxDepth) ensures n in visit {
          var k: nat :| k <= maxDepth && ReachesIn(e, start, n, k);
          assert Reaches(e, start, n);
        }
      }
    }
  }

  function NeighborsOf(adjacency: Graph, n: Id): seq<Id> {
    if n in adjacency then adjacency[n] else []
  }

  ghost predicate ClosedIn(adjacency: Graph, known: set<Id>) {
    forall n, m :: n in adjacency && m in adjacency[n] ==> m in known
  }

  /** The exact visiting order from a given frontier, whatever the bound. */
  ghost function VisitOrder(breadth: bool, adjacency: Graph, known: set<Id>, maxDepth: nat,
                            frontier: seq<Entry>, visit: seq<Id>): seq<Id>
    requires ClosedIn(adjacency, known) && forall f :: f in frontier ==> f.node in known
    decreases known - Elements(visit), |frontier|
  {
    if frontier == [] then visit
    else
      var next, rest := Next(breadth, frontier), Rest(breadth, frontier);
      if next.node in visit || next.depth > maxDepth then VisitOrder(breadth, adjacency, known, maxDepth, rest, visit)
      else
        PushedMembers(NeighborsOf(adjacency, next.node), next.depth + 1);
        assert next.node in known - Elements(visit) && next.node in Elements(visit + [next.node]);
        VisitOrder(breadth, adjacency, known, maxDepth,
                   rest + Pushed(NeighborsOf(adjacency, next.node), next.depth + 1), visit + [next.node])
  }

  lemma VisitEnd(breadth: bool, adjacency: Graph, known: set<Id>, maxDepth: nat, visit: seq<Id>)
    requires ClosedIn(adjacency, known)
    ensures VisitOrder(breadth, adjacency, known, maxDepth, [], visit) == visit
  {}

  lemma VisitSkip(breadth: bool, adjacency: Graph, known: set<Id>, maxDepth: nat, frontier: seq<Entry>, visit: seq<Id>)
    requires ClosedIn(adjacency, known) && (forall f :: f in frontier ==> f.node in known) && frontier != []
    requires Next(breadth, frontier).node in visit || Next(breadth, frontier).depth > maxDepth
    ensures forall f :: f in Rest(breadth, frontier) ==> f.node in known
    ensures VisitOrder(breadth, adjacency, known, maxDepth, frontier, visit)
         == VisitOrder(breadth, adjacency, known, maxDepth, Rest(breadth, frontier), visit)
  {}

  lemma VisitNext(breadth: bool, adjacency: Graph, known: set<Id>, maxDepth: nat, frontier: seq<Entry>, visit: seq<Id>,
                  frontier': seq<Entry>, visit': seq<Id>)
    requires ClosedIn(adjacency, known) && (forall f :: f in frontier ==> f.node in known) && frontier != []
    requires var next := Next(breadth, frontier);
             && next.node !in visit && next.depth <= maxDepth
             && frontier' == Rest(breadth, frontier) + Pushed(NeighborsOf(adjacency, next.node), next.depth + 1)
             && visit' == visit + [next.node]
    ensures forall f :: f in frontier' ==> f.node in known
    ensures VisitOrder(breadth, adjacency, known, maxDepth, frontier, visit)
         == VisitOrder(breadth, adjacency, known, maxDepth, frontier', visit')
  {
    var next := Next(breadth, frontier);
    FrontierKnown(breadth, adjacency, known, frontier, NeighborsOf(adjacency, next.node), next.depth + 1);
    hide ClosedIn, NeighborsOf, Next, Rest;
  }

  /** Whatever replaces the next entry is known as well. */
  lemma FrontierKnown(breadth: bool, adjacency: Graph, known: set<Id>, frontier: seq<Entry>, neighbors: seq<Id>,
                      depth: nat)
    requires ClosedIn(adjacency, known) && (forall f :: f in frontier ==> f.node in known) && frontier != []
    requires neighbors == NeighborsOf(adjacency, Next(breadth, frontier).node)
    ensures Next(breadth, frontier).node in known
    ensures forall f :: f in Rest(breadth, frontier) + Pushed(neighbors, depth) ==> f.node in known
  {
    PushedMembers(neighbors, depth);
  }

  /** From any frontier under way the visiting order ends as the strategy promises. */
  lemma {:induction false} VisitsOrdered(breadth: bool, e: Edges, adjacency: Graph, start: Id, maxDepth: nat,
                                         known: set<Id>,
                                         frontier: seq<Entry>, visit: seq<Id>, level: map<Id, nat>)
    requires ClosedIn(adjacency, known) && (forall f :: f in frontier ==> f.node in known)
    requires forall n :: Neighbors(e, n, NeighborsOf(adjacency, n))
    requires forall a, b :: (a, b) in e ==> b in known
    requires Underway(breadth, e, start, maxDepth, known, frontier, visit, level)
    ensures var order := VisitOrder(breadth, adjacency, known, maxDepth, frontier, visit);
            && (breadth ==> BreadthFirstOrder(e, start, maxDepth, order))
            && (!breadth ==> DepthFirstOrder(e, start, maxDepth, known, order))
    decreases known - Elements(visit), |frontier|
  {
    hide Underway, VisitOrder, BreadthFirstOrder, DepthFirstOrder, Next, Rest;
    if frontier == [] {
      Finish(breadth, e, start, maxDepth, known, visit, level);
      VisitEnd(breadth, adjacency, known, maxDepth, visit);
    } else {
      var next, rest := Next(breadth, frontier), Rest(breadth, frontier);
      if next.node in visit || next.depth > maxDepth {
        Skip(breadth, e, start, maxDepth, known, frontier, visit, level);
        VisitSkip(breadth, adjacency, known, maxDepth, frontier, visit);
        VisitsOrdered(breadth, e, adjacency, start, maxDepth, known, rest, visit, level);
      } else {
        var neighbors := NeighborsOf(adjacency, next.node);
        var frontier', visit' := rest + Pushed(neighbors, next.depth + 1), visit + [next.node];
        Visit(breadth, e, start, maxDepth, known, frontier, visit, level, neighbors);
        VisitNext(breadth, adjacency, known, maxDepth, frontier, visit, frontier', visit');
        assert next.node in known - Elements(visit) && next.node in Elements(visit');
        VisitsOrdered(breadth, e, adjacency, start, maxDepth, known, frontier', visit', level[next.node := next.depth]);
      }
    }
  }

  // ---------- which bounds are complete depth first ----------

  /** A depth-first traversal from start visits everything within the bound. */
  ghost predicate Complete(adjacency: Graph, known: set<Id>, maxDepth: nat, start: Id)
    requires ClosedIn(adjacency, known) && start in known
  {
    forall n :: WithinDepth(EdgesOf(adjacency), start, n, maxDepth) ==>
      n in VisitOrder(false, adjacency, known, maxDepth, [Entry(start, 0)], [])
  }

  lemma CompleteWithin(adjacency: Graph, known: set<Id>, maxDepth: nat, start: Id)
    requires ClosedIn(adjacency, known) && start in known
    requires maxDepth <= 1 || maxDepth >= |known| - 1
    ensures Complete(adjacency, known, maxDepth, start)
  {
    var e := EdgesOf(adjacency);
    forall n ensures Neighbors(e, n, NeighborsOf(adjacency, n)) {}
    Start(false, e, start, maxDepth, known);
    VisitsOrdered(false, e, adjacency, start, maxDepth, known, [Entry(start, 0)], [], map[]);
  }

  /** Where the name at position i leads: the first to the third and, last, to the second; every
      other one to the next. */
  function Onward(names: seq<Id>, i: nat): seq<Id>
    requires i + 2 < |names| || 0 < i < |names| - 1
  {
    if i == 0 then [names[2], names[1]] else [names[i + 1]]
  }

  /** The graph of these names up to the one at position d + 1. */
  function Detour(names: seq<Id>, d: nat): Graph
    requires Distinct(names) && 2 <= d && d + 2 <= |names|
  {
    map i | 0 <= i <= d :: names[i] := Onward(names, i)
  }

  lemma DetourClosed(names: seq<Id>, d: nat, known: set<Id>)
    requires Distinct(names) && 2 <= d && d + 2 <= |names| && Elements(names) == known
    ensures ClosedIn(Detour(names, d), known) && forall i :: 0 <= i < |names| ==> names[i] in known
  {
    assert forall i :: 0 <= i < |names| ==> names[i] in Elements(names);
  }

  lemma DetourNeighbors(names: seq<Id>, d: nat)
    requires Distinct(names) && 2 <= d && d + 2 <= |names|
    ensures forall i :: 0 <= i <= d ==>
              names[i] in Detour(names, d) && NeighborsOf(Detour(names, d), names[i]) == Onward(names, i)
  {
    hide Onward;
  }

  lemma DetourEdge(names: seq<Id>, d: nat, i: nat, n: Id)
    requires Distinct(names) && 2 <= d && d + 2 <= |names| && i <= d && n in Onward(names, i)
    ensures (names[i], n) in EdgesOf(Detour(names, d))
  {
    DetourNeighbors(names, d);
  }

  /** Past the second name each one is reached one step later than the one before. */
  lemma {:induction false} DetourReaches(names: seq<Id>, d: nat, i: nat)
    requires Distinct(names) && 2 <= d && d + 2 <= |names| && 2 <= i <= d + 1
    ensures ReachesIn(EdgesOf(Detour(names, d)), names[0], names[i], i - 1)
    decreases i
  {
    var e := EdgesOf(Detour(names, d));
    hide Detour, EdgesOf, Distinct, ReachesIn;
    if i == 2 {
      ReachesSelf(e, names[0]);
      DetourEdge(names, d, 0, names[2]);
      ReachesStep(e, names[0], names[0], names[2], 0);
    } else {
      DetourReaches(names, d, i - 1);
      DetourEdge(names, d, i - 1, names[i]);
      ReachesStep(e, names[0], names[i - 1], names[i], i - 2);
    }
  }

  /** Depth first the detour is walked in the order of the names, each one deeper than the
      one before, so the last one is met beyond the bound. */
  lemma {:induction false} DetourWalked(names: seq<Id>, d: nat, known: set<Id>, j: nat)
    requires Distinct(names) && 2 <= d && d + 2 <= |names| && Elements(names) == known && 0 < j <= d
    requires ClosedIn(Detour(names, d), known) && names[2] in known && names[j + 1] in known
    ensures VisitOrder(false, Detour(names, d), known, d, [Entry(names[2], 1), Entry(names[j + 1], j + 1)],
        names[..j + 1])
         == names[..d + 1]
    decreases d - j
  {
    hide VisitOrder, NeighborsOf, ClosedIn, Detour;
    var g, frontier, visit := Detour(names, d), [Entry(names[2], 1), Entry(names[j + 1], j + 1)], names[..j + 1];
    DetourClosed(names, d, known);
    DetourNeighbors(names, d);
    assert frontier[..1] == [Entry(names[2], 1)];
    if j < d {
      assert names[j + 1] !in visit && names[..j + 2] == visit + [names[j + 1]];
      assert [Entry(names[2], 1)] + Pushed([names[j + 2]], j + 2) == [Entry(names[2], 1), Entry(names[j + 2], j + 2)];
      assert names[j + 2] in Elements(names);
      VisitNext(false, g, known, d, frontier, visit, [Entry(names[2], 1), Entry(names[j + 2], j + 2)], names[..j + 2]);
      DetourWalked(names, d, known, j + 1);
    } else {
      VisitSkip(false, g, known, d, frontier, visit);
      assert visit[2] == names[2];
      VisitSkip(false, g, known, d, [Entry(names[2], 1)], visit);
      assert [Entry(names[2], 1)][..0] == [];
      VisitEnd(false, g, known, d, visit);
    }
  }

  /** For every bound in between some graph on the known nodes loses a node within the bound. */
  lemma DepthFirstMisses(names: seq<Id>, d: nat, known: set<Id>)
    requires Distinct(names) && 2 <= d && d + 2 <= |names| && Elements(names) == known
    ensures ClosedIn(Detour(names, d), known) && names[0] in known && !Complete(Detour(names, d), known, d, names[0])
  {
    hide VisitOrder, NeighborsOf, ClosedIn, Detour;
    var g := Detour(names, d);
    DetourReaches(names, d, d + 1);
    assert WithinDepth(EdgesOf(g), names[0], names[d + 1], d);
    DetourClosed(names, d, known);
    DetourNeighbors(names, d);
    assert names[1] in Elements(names) && names[2] in Elements(names);
    var first := [Entry(names[2], 1), Entry(names[1], 1)];
    assert [] + Pushed([names[2], names[1]], 1) == first && [Entry(names[0], 0)][..0] == [];
    VisitNext(false, g, known, d, [Entry(names[0], 0)], [], first, [names[0]]);
    assert first[..1] == [Entry(names[2], 1)] && names[..2] == [names[0]] + [names[1]];
    VisitNext(false, g, known, d, first, [names[0]], [Entry(names[2], 1), Entry(names[2], 2)], names[..2]);
    DetourWalked(names, d, known, 1);
    assert names[d + 1] !in names[..d + 1];
  }

  lemma {:induction false} Enumerate(s: set<Id>) returns (r: seq<Id>)
    ensures Distinct(r) && Elements(r) == s
    decreases s
  {
    if s == {} {
      r := [];
    } else {
      var x :| x in s;
      var rest := Enumerate(s - {x});
      DistinctSnoc(rest, x);
      r := rest + [x];
      assert Elements(r) == Elements(rest) + {x};
    }
  }

  /** A bound is complete for every graph on the known nodes exactly when it is at most one or at
      least the number of nodes less one. */
  lemma DepthFirstCompleteIff(known: set<Id>, maxDepth: nat)
    ensures (forall adjacency: Graph, start :: ClosedIn(adjacency, known) && start in known ==>
               Complete(adjacency, known, maxDepth, start))
            <==> maxDepth <= 1 || maxDepth >= |known| - 1
  {
    hide ClosedIn, Complete;
    if maxDepth <= 1 || maxDepth >= |known| - 1 {
      forall adjacency: Graph, start | ClosedIn(adjacency, known) && start in known
        ensures Complete(adjacency, known, maxDepth, start)
      {
        CompleteWithin(adjacency, known, maxDepth, start);
      }
    } else {
      var names := Enumerate(known);
      DistinctIff(names);
      DepthFirstMisses(names, maxDepth, known);
    }
  }

  /** Under a generous bound both strategies visit the same nodes. */
  lemma StrategiesAgree(e: Edges, start: Id, maxDepth: nat, known: set<Id>, breadth: seq<Id>, depth: seq<Id>)
    requires BreadthFirstOrder(e, start, maxDepth, breadth) && DepthFirstOrder(e, start, maxDepth, known, depth)
    requires maxDepth >= |known| - 1 && start in known
    requires forall a, b :: (a, b) in e ==> b in known
    ensures Elements(breadth) == Elements(depth) && |breadth| == |depth|
  {
    forall n ensures n in breadth <==> n in depth {
      if n in depth {
        var w :| WalkFromTo(e, w, start, n);
        var v := SimpleWalk(e, w);
        forall x | x in v ensures x in known {
          var i :| 0 <= i < |v| && v[i] == x;
          assert i > 0 ==> (v[i - 1], v[i]) in e;
        }
        DistinctFits(v, known);
        assert ReachesIn(e, start, n, |v| - 1);
      }
      if n in breadth {
        var k: nat :| k <= maxDepth && ReachesIn(e, start, n, k);
      }
    }
    DistinctIff(breadth);
    DistinctIff(depth);
  }
}
