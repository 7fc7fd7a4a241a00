/** The import-cycle search of scripts/verify-v10-production.py: a recursive depth-first
    search over shared mutable lists that collects every back edge it meets as a cycle. */
module ImportCycles {
  import opened Graphs

  /** The edges the search follows: targets that are no key of the graph are skipped. */
  function KeyEdges(g: Graph): (e: Edges)
    ensures forall a, b :: (a, b) in e <==> a in g && b in g[a] && b in g
  {
    set a, b | a in g && b in g[a] && b in g :: (a, b)
  }

  /** A reported cycle: a closed walk along real edges that repeats no interior node. */
  ghost predicate IsReport(g: Graph, c: seq<Id>) {
    IsCycle(KeyEdges(g), c) && Distinct(c[..|c| - 1])
  }

  /** Targets outside the keys never lie on a cycle. */
  lemma KeyCyclesAreAllCycles(g: Graph, c: seq<Id>)
    ensures IsCycle(KeyEdges(g), c) <==> IsCycle(EdgesOf(g), c)
  {
    if IsCycle(EdgesOf(g), c) {
      forall i, j | 0 <= i && j == i + 1 && j < |c| ensures (c[i], c[j]) in KeyEdges(g) {
        assert (c[i], c[j]) in EdgesOf(g);
        if j + 1 < |c| {
          assert (c[j], c[j + 1]) in EdgesOf(g);
        } else {
          assert (c[0], c[1]) in EdgesOf(g);
        }
      }
    }
  }

  lemma KeyEdge(g: Graph, node: Id, k: nat)
    requires node in g && k < |g[node]| && g[node][k] in g
    ensures (node, g[node][k]) in KeyEdges(g)
  {}

  /** The last edge of a reported cycle, the one that closed it. */
  function ClosingEdge(c: seq<Id>): (Id, Id)
    requires |c| >= 2
  {
    (c[|c| - 2], c[|c| - 1])
  }

  function Closing(found: seq<seq<Id>>): (e: Edges)
    ensures forall c :: c in found && |c| >= 2 ==> ClosingEdge(c) in e
    ensures forall x :: x in e ==> exists c :: c in found && |c| >= 2 && ClosingEdge(c) == x
  {
    set c | c in found && |c| >= 2 :: ClosingEdge(c)
  }

  /** What the shared lists of the search keep, finished being complete in order of completion. */
  ghost predicate Consistent(g: Graph, found: seq<seq<Id>>, active: seq<Id>, finished: seq<Id>) {
    && Distinct(active) && (active == [] || IsWalk(KeyEdges(g), active))
    && (forall n :: n in active ==> n in g)
    && Distinct(finished)
    && (forall n :: n in finished ==> n in g && n !in active)
    && DependenciesFirst(KeyEdges(g) - Closing(found), finished)
    && (forall c :: c in found ==> IsReport(g, c))
    && Distinct(found)
  }

  /** Meeting an active node again closes a cycle along the active stack. */
  lemma BackEdge(g: Graph, found: seq<seq<Id>>, active: seq<Id>, finished: seq<Id>, index: nat)
    requires Consistent(g, found, active, finished) && index < |active|
    requires (active[|active| - 1], active[index]) in KeyEdges(g)
    ensures IsReport(g, active[index..] + [active[index]])
    ensures ClosingEdge(active[index..] + [active[index]]) == (active[|active| - 1], active[index])
  {
    var c := active[index..] + [active[index]];
    assert c[..|c| - 1] == active[index..];
  }

  lemma Enter(g: Graph, found: seq<seq<Id>>, active: seq<Id>, finished: seq<Id>, node: Id)
    requires Consistent(g, found, active, finished)
    requires node in g && node !in active && node !in finished
    requires active == [] || (active[|active| - 1], node) in KeyEdges(g)
    ensures Consistent(g, found, active + [node], finished)
    ensures |active| < |g|
  {
    DistinctFits(active + [node], g.Keys);
  }

  lemma Leave(g: Graph, found: seq<seq<Id>>, active: seq<Id>, finished: seq<Id>, node: Id)
    requires Consistent(g, found, active + [node], finished)
    requires node in g && forall b :: b in g[node] && b in g ==> b in finished || (node, b) in Closing(found)
    ensures Consistent(g, found, active, finished + [node])
  {
    var stack := active + [node];
    PopWalk(KeyEdges(g), active, node);
    assert node in stack;
    DistinctSnoc(finished, node);
    DependenciesFirstExtend(KeyEdges(g) - Closing(found), finished, node);
  }

  lemma Report(g: Graph, found: seq<seq<Id>>, active: seq<Id>, finished: seq<Id>, c: seq<Id>)
    requires Consistent(g, found, active, finished) && IsReport(g, c) && c !in found
    ensures Consistent(g, found + [c], active, finished)
    ensures ClosingEdge(c) in Closing(found + [c])
  {
    ClosingGrows(found, found + [c]);
  }

  lemma ClosingGrows(found: seq<seq<Id>>, more: seq<seq<Id>>)
    requires found <= more
    ensures Closing(found) <= Closing(more)
  {
    forall c | c in found ensures c in more {
      var i :| 0 <= i < |found| && found[i] == c;
      assert more[i] == c;
    }
  }

  class CycleSearch {
    const graph: Graph
    var found: seq<seq<Id>>
    var active: seq<Id>
    var complete: set<Id>
    /** complete in order of completion */
    ghost var finished: seq<Id>

    constructor (graph: Graph)
      ensures Valid() && this.graph == graph
      ensures found == [] && active == [] && complete == {}
    {
      this.graph := graph;
      found, active, complete, finished := [], [], {}, [];
    }

    ghost predicate Valid()
      reads this
    {
      Consistent(graph, found, active, finished) && (forall n :: n in complete <==> n in finished)
    }

    method Visit(node: Id)
      requires Valid() && node in graph
      requires active == [] || (active[|active| - 1], node) in KeyEdges(graph)
      modifies this
      ensures Valid()
      ensures active == old(active)
      ensures old(found) <= found && old(complete) <= complete
      ensures node in complete || (active != [] && (active[|active| - 1], node) in Closing(found))
      decreases |graph| - |active|
    {
      hide Consistent, Closing, ClosingEdge, IsReport, KeyEdges;
      ghost var outer := active;
      if node in active {
        var index :| 0 <= index < |active| && active[index] == node;
        var cycle := active[index..] + [node];
        BackEdge(graph, found, active, finished, index);
        if cycle !in found {
          Report(graph, found, active, finished, cycle);
          found := found + [cycle];
        }
        return;
      }
      if node in complete {
        return;
      }
      Enter(graph, found, active, finished, node);
      active := active + [node];
      var targets := graph[node];
      for k := 0 to |targets|
        invariant Valid() && active == outer + [node]
        invariant old(found) <= found && old(complete) <= complete
        invariant forall j :: 0 <= j < k && targets[j] in graph ==>
                    targets[j] in complete || (node, targets[j]) in Closing(found)
      {
        if targets[k] in graph {
          KeyEdge(graph, node, k);
          ghost var before := found;
          Visit(targets[k]);
          ClosingGrows(before, found);
        }
      }
      Leave(graph, found, outer, finished, node);
      active := active[..|active| - 1];
      assert active == outer;
      complete := complete + {node};
      finished := finished + [node];
    }
  }

  /** Once everything is finished, every cycle uses the closing edge of some reported one. */
  lemma EveryCycleCloses(g: Graph, found: seq<seq<Id>>, finished: seq<Id>, w: seq<Id>)
    requires Consistent(g, found, [], finished) && (forall n :: n in g ==> n in finished)
    requires IsCycle(EdgesOf(g), w)
    ensures exists i :: 0 <= i < |w| - 1 && (w[i], w[i + 1]) in Closing(found)
  {
    KeyCyclesAreAllCycles(g, w);
    var e := KeyEdges(g) - Closing(found);
    if forall i :: 0 <= i < |w| - 1 ==> (w[i], w[i + 1]) !in Closing(found) {
      forall i, j | 0 <= i && j == i + 1 && j < |w| ensures (w[i], w[j]) in e {
        assert (w[i], w[i + 1]) !in Closing(found) && (w[i], w[j]) in KeyEdges(g);
      }
      assert (w[0], w[1]) in KeyEdges(g);
      DependenciesFirstSound(e, finished, w[0]);
      ReachesSelf(e, w[0]);
      assert false;
    }
  }

  /** keys lists the keys of graph in dictionary order. */
  method Cycles(graph: Graph, keys: seq<Id>) returns (found: seq<seq<Id>>)
    requires Distinct(keys) && Elements(keys) == graph.Keys
    ensures found == [] <==> Acyclic(EdgesOf(graph))
    ensures forall c :: c in found ==> IsReport(graph, c)
    ensures Distinct(found)
    ensures forall w :: IsCycle(EdgesOf(graph), w) ==>
              exists i :: 0 <= i < |w| - 1 && (w[i], w[i + 1]) in Closing(found)
  {
    var search := new CycleSearch(graph);
    for k := 0 to |keys|
      invariant fresh(search)
      invariant search.Valid() && search.graph == graph && search.active == []
      invariant forall j :: 0 <= j < k ==> keys[j] in search.complete
    {
      search.Visit(keys[k]);
    }
    found := search.found;
    assert forall n :: n in graph ==> n in search.finished by {
      assert forall n :: n in graph ==> n in Elements(keys);
    }
    AllReported(graph, found, search.finished);
  }

  lemma AllReported(g: Graph, found: seq<seq<Id>>, finished: seq<Id>)
    requires Consistent(g, found, [], finished) && forall n :: n in g ==> n in finished
    ensures found == [] <==> Acyclic(EdgesOf(g))
    ensures forall c :: c in found ==> IsReport(g, c)
    ensures Distinct(found)
    ensures forall w :: IsCycle(EdgesOf(g), w) ==> exists i :: 0 <= i < |w| - 1 && (w[i], w[i + 1]) in Closing(found)
  {
    forall w | IsCycle(EdgesOf(g), w) ensures exists i :: 0 <= i < |w| - 1 && (w[i], w[i + 1]) in Closing(found) {
      EveryCycleCloses(g, found, finished, w);
    }
    if found != [] {
      assert IsReport(g, found[0]);
      KeyCyclesAreAllCycles(g, found[0]);
    }
  }
}
