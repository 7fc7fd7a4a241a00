/** The breadth-first path search of knowledge_graph/platform.py's shortest_path, as invariants
    of a loop over a queue of whole paths that marks nodes visited when they are enqueued. */
module ShortestPath {
  import opened Graphs

  function End(path: seq<Id>): Id
    requires path != []
  {
    path[|path| - 1]
  }

  ghost predicate Queued(queue: seq<seq<Id>>, n: Id) {
    exists p :: p in queue && p != [] && End(p) == n
  }

  /** level[n] is the number of edges of the one path ever enqueued that ends at n; nodes that
      are visited but no longer queued are expanded: their targets are visited in time. */
  ghost predicate Searching(e: Edges, source: Id, target: Id, queue: seq<seq<Id>>, level: map<Id, nat>) {
    && source in level && level[source] == 0
    && (forall p :: p in queue ==>
          p != [] && WalkFromTo(e, p, source, End(p)) && End(p) in level && level[End(p)] == |p| - 1)
    && (forall i, j :: 0 <= i < j < |queue| ==> |queue[i]| <= |queue[j]| <= |queue[i]| + 1)
    && (forall n :: n in level && queue != [] ==> level[n] <= |queue[0]|)
    && (target in level ==> Queued(queue, target))
    && (forall n, m :: n in level && (n, m) in e ==> Queued(queue, n) || (m in level && level[m] <= level[n] + 1))
  }

  lemma SearchInit(e: Edges, source: Id, target: Id)
    ensures Searching(e, source, target, [[source]], map[source := 0])
  {
    assert [source] in [[source]] && End([source]) == source;
  }

  lemma HeadPath(e: Edges, source: Id, target: Id, queue: seq<seq<Id>>, level: map<Id, nat>)
    requires Searching(e, source, target, queue, level) && queue != []
    ensures queue[0] != []
  {
    assert queue[0] in queue;
  }

  /** The first node along w that is not expanded yet is queued no deeper than its place on w. */
  lemma {:induction false} FrontOf(e: Edges, source: Id, target: Id, queue: seq<seq<Id>>, level: map<Id, nat>,
                                   w: seq<Id>)
    requires Searching(e, source, target, queue, level) && IsWalk(e, w) && w[0] == source
    ensures (End(w) in level && level[End(w)] <= |w| - 1) ||
            exists p :: p in queue && |p| <= |w|
    decreases |w|
  {
    var k := |w| - 1;
    if k > 0 {
      FrontOf(e, source, target, queue, level, w[..k]);
      assert End(w[..k]) == w[k - 1] && (w[k - 1], w[k]) in e;
      if Queued(queue, w[k - 1]) {
        var p :| p in queue && p != [] && End(p) == w[k - 1];
      }
    }
  }

  /** A path that leaves the queue at the target is a shortest one. */
  lemma FoundShortest(e: Edges, source: Id, target: Id, queue: seq<seq<Id>>, level: map<Id, nat>)
    requires Searching(e, source, target, queue, level) && queue != []
    requires queue[0] != [] && End(queue[0]) == target
    ensures WalkFromTo(e, queue[0], source, target)
    ensures forall w :: WalkFromTo(e, w, source, target) ==> |queue[0]| <= |w|
  {
    assert queue[0] in queue;
    forall w | WalkFromTo(e, w, source, target) ensures |queue[0]| <= |w| {
      FrontOf(e, source, target, queue, level, w);
      if exists p :: p in queue && |p| <= |w| {
        var p :| p in queue && |p| <= |w|;
        var i :| 0 <= i < |queue| && queue[i] == p;
      }
    }
  }

  lemma Exhausted(e: Edges, source: Id, target: Id, level: map<Id, nat>)
    requires Searching(e, source, target, [], level)
    ensures !Reaches(e, source, target)
  {
    assert !Queued([], target);
    if Reaches(e, source, target) {
      var w :| WalkFromTo(e, w, source, target);
      FrontOf(e, source, target, [], level, w);
    }
  }

  /** Expanding: the head path has been popped, some neighbours are already enqueued behind rest. */
  ghost predicate Expanding(e: Edges, source: Id, target: Id, head: seq<Id>, queue: seq<seq<Id>>, level: map<Id, nat>,
                            neighbors: seq<Id>, k: nat) {
    && head != [] && IsWalk(e, head) && head[0] == source && End(head) != target
    && k <= |neighbors| && (forall m :: m in neighbors <==> (End(head), m) in e)
    && Lined(e, source, head, queue, level)
    && Accounted(e, target, head, queue, level, neighbors, k)
  }

  /** The queued paths and the levels of their ends. */
  ghost predicate Lined(e: Edges, source: Id, head: seq<Id>, queue: seq<seq<Id>>, level: map<Id, nat>) {
    && source in level && level[source] == 0
    && (forall p :: p in queue ==>
          p != [] && WalkFromTo(e, p, source, End(p)) && End(p) in level && level[End(p)] == |p| - 1)
    && (forall p :: p in queue ==> |head| <= |p| <= |head| + 1)
    && (forall i, j :: 0 <= i < j < |queue| ==> |queue[i]| <= |queue[j]|)
    && (forall n :: n in level ==> level[n] <= |head|)
  }

  /** The visited nodes: queued, or expanded with their targets visited in time; of head's targets
      the first k. */
  ghost predicate Accounted(e: Edges, target: Id, head: seq<Id>, queue: seq<seq<Id>>, level: map<Id, nat>,
                            neighbors: seq<Id>, k: nat)
    requires head != [] && k <= |neighbors|
  {
    && End(head) in level && level[End(head)] == |head| - 1
    && (target in level ==> Queued(queue, target))
    && (forall i :: 0 <= i < k ==> neighbors[i] in level && level[neighbors[i]] <= |head|)
    && (forall n, m :: n in level && n != End(head) && (n, m) in e ==>
          Queued(queue, n) || (m in level && level[m] <= level[n] + 1))
  }

  lemma StartExpanding(e: Edges, source: Id, target: Id, queue: seq<seq<Id>>, level: map<Id, nat>, neighbors: seq<Id>)
    requires Searching(e, source, target, queue, level) && queue != []
    requires queue[0] != [] && End(queue[0]) != target
    requires forall m :: m in neighbors <==> (End(queue[0]), m) in e
    ensures Expanding(e, source, target, queue[0], queue[1..], level, neighbors, 0)
  {
    var head, rest := queue[0], queue[1..];
    assert head in queue;
    forall p | p in rest ensures p in queue && |head| <= |p| <= |head| + 1 {
      var i :| 0 <= i < |rest| && rest[i] == p;
      assert queue[i + 1] == p;
    }
    forall n | Queued(queue, n) && n != End(head) ensures Queued(rest, n) {
      var p :| p in queue && p != [] && End(p) == n;
      assert p in rest;
    }
  }

  lemma ExpandKnown(e: Edges, source: Id, target: Id, head: seq<Id>, queue: seq<seq<Id>>, level: map<Id, nat>,
                    neighbors: seq<Id>, k: nat)
    requires Expanding(e, source, target, head, queue, level, neighbors, k) && k < |neighbors|
    requires neighbors[k] in level
    ensures Expanding(e, source, target, head, queue, level, neighbors, k + 1)
  {}

  lemma ExpandNew(e: Edges, source: Id, target: Id, head: seq<Id>, queue: seq<seq<Id>>, level: map<Id, nat>,
                  neighbors: seq<Id>, k: nat)
    requires Expanding(e, source, target, head, queue, level, neighbors, k) && k < |neighbors|
    requires neighbors[k] !in level
    ensures Expanding(e, source, target, head, queue + [head + [neighbors[k]]], level[neighbors[k] := |head|],
        neighbors, k + 1)
  {
    var m := neighbors[k];
    assert m in neighbors;
    assert WalkFromTo(e, head + [m], source, m);
    LineUp(e, source, head, queue, level, m);
    AccountNew(e, target, head, queue, level, neighbors, k);
  }

  lemma LineUp(e: Edges, source: Id, head: seq<Id>, queue: seq<seq<Id>>, level: map<Id, nat>, m: Id)
    requires Lined(e, source, head, queue, level) && m !in level
    requires WalkFromTo(e, head + [m], source, m)
    ensures Lined(e, source, head, queue + [head + [m]], level[m := |head|])
  {
    hide WalkFromTo;
    var queue', level' := queue + [head + [m]], level[m := |head|];
    assert End(head + [m]) == m;
    forall i, j | 0 <= i < j < |queue'| ensures |queue'[i]| <= |queue'[j]| {
      assert i < |queue| && queue[i] in queue;
    }
  }

  lemma AccountNew(e: Edges, target: Id, head: seq<Id>, queue: seq<seq<Id>>, level: map<Id, nat>, neighbors: seq<Id>,
                   k: nat)
    requires head != [] && k < |neighbors| && neighbors[k] !in level
    requires Accounted(e, target, head, queue, level, neighbors, k)
    ensures Accounted(e, target, head, queue + [head + [neighbors[k]]], level[neighbors[k] := |head|], neighbors, k + 1)
  {
    var m := neighbors[k];
    var path := head + [m];
    var queue' := queue + [path];
    forall n | Queued(queue, n) || n == m ensures Queued(queue', n) {
      if n == m {
        assert path in queue' && End(path) == m;
      } else {
        var p :| p in queue && p != [] && End(p) == n;
        assert p in queue';
      }
    }
    hide Queued;
  }

  lemma DoneExpanding(e: Edges, source: Id, target: Id, head: seq<Id>, queue: seq<seq<Id>>, level: map<Id, nat>,
                      neighbors: seq<Id>)
    requires Expanding(e, source, target, head, queue, level, neighbors, |neighbors|)
    ensures Searching(e, source, target, queue, level)
  {
    forall i, j | 0 <= i < j < |queue| ensures |queue[i]| <= |queue[j]| <= |queue[i]| + 1 {
      assert queue[i] in queue && queue[j] in queue;
    }
    forall m | (End(head), m) in e ensures m in level && level[m] <= level[End(head)] + 1 {
      assert m in neighbors;
      var i :| 0 <= i < |neighbors| && neighbors[i] == m;
    }
  }
}
