/** The independently written dependency checkers, run on one graph. */
module Agreement {
  import opened Graphs
  import opened Chains
  import ImportCycles
  import TaskOrder
  import DependencyResolver
  import AppStore

  /** The graph as tasks, in the order of keys. */
  function Tasks(graph: Graph, keys: seq<Id>): (r: seq<TaskOrder.Task>)
    requires forall k :: k in keys ==> k in graph
    ensures TaskOrder.Ids(r) == keys
  {
    seq(|keys|, i requires 0 <= i < |keys| =>
          assert keys[i] in keys;
          TaskOrder.Task(keys[i], keys[i], graph[keys[i]], 0, {}, false, 0))
  }

  lemma LastTask(graph: Graph, keys: seq<Id>)
    requires Distinct(keys) && keys != [] && forall k :: k in keys ==> k in graph
    ensures var n := |keys| - 1;
            && Tasks(graph, keys)[..n] == Tasks(graph, keys[..n]) && Distinct(keys[..n])
            && Tasks(graph, keys)[n].id == keys[n] && Tasks(graph, keys)[n].dependencies == graph[keys[n]]
            && forall k :: k in keys <==> k in keys[..n] || k == keys[n]
  {
    var n := |keys| - 1;
    assert keys == keys[..n] + [keys[n]];
    forall k | k in keys[..n] ensures k in keys {}
  }

  lemma {:induction false} TasksGraph(graph: Graph, keys: seq<Id>)
    requires Distinct(keys) && forall k :: k in keys ==> k in graph
    ensures TaskOrder.DependencyGraph(Tasks(graph, keys)) == map k | k in graph && k in keys :: graph[k]
  {
    if keys != [] {
      var n := |keys| - 1;
      LastTask(graph, keys);
      TasksGraph(graph, keys[..n]);
      hide Tasks, Distinct;
    }
  }

  function AllRequired(targets: seq<Id>): (r: seq<DependencyResolver.Dependency>)
    ensures DependencyResolver.Required(r) == targets
  {
    if targets == [] then []
    else
      var r := [DependencyResolver.Dependency(targets[0], true)] + AllRequired(targets[1..]);
      assert r[1..] == AllRequired(targets[1..]);
      r
  }

  /** The graph as package descriptors with every dependency required. */
  function Registry(graph: Graph): (r: DependencyResolver.Registry)
    ensures DependencyResolver.WellKeyed(r)
  {
    map k | k in graph :: DependencyResolver.Package(k, AllRequired(graph[k]))
  }

  /** The graph as app-store packages. */
  function Packages(graph: Graph): (r: AppStore.Packages)
    ensures AppStore.WellKeyed(r)
  {
    map k | k in graph :: AppStore.Package(k, graph[k])
  }

  /** Everything reachable from the root is present and free of cycles. */
  ghost predicate SoundRoot(graph: Graph, root: Id) {
    PresentFrom(graph, root) && AcyclicFrom(EdgesOf(graph), root)
  }

  lemma EveryRootSound(graph: Graph, keys: seq<Id>)
    requires Elements(keys) == graph.Keys
    ensures (forall i :: 0 <= i < |keys| ==> SoundRoot(graph, keys[i])) <==> Closed(graph) && Acyclic(EdgesOf(graph))
  {
    var m := |graph|;
    AllSettledIffSound(graph, m);
    forall k ensures Settled(graph, k, m) <==> SoundRoot(graph, k) {
      SettledIffSound(graph, k, m);
    }
    if forall i :: 0 <= i < |keys| ==> SoundRoot(graph, keys[i]) {
      forall k | k in graph ensures Settled(graph, k, m) {
        assert k in keys;
        var i :| 0 <= i < |keys| && keys[i] == k;
      }
    }
    assert forall i :: 0 <= i < |keys| ==> keys[i] in Elements(keys);
  }

  method FindsNoCycle(graph: Graph, keys: seq<Id>) returns (acyclic: bool)
    requires Distinct(keys) && Elements(keys) == graph.Keys
    ensures acyclic <==> Acyclic(EdgesOf(graph))
  {
    hide Acyclic, ImportCycles.IsReport, ImportCycles.Closing;
    var found := ImportCycles.Cycles(graph, keys);
    acyclic := found == [];
  }

  method ResolvesRoot(graph: Graph, registry: DependencyResolver.Registry, root: Id) returns (ok: bool)
    requires DependencyResolver.WellKeyed(registry) && DependencyResolver.RequiredGraph(registry) == graph
    ensures ok <==> SoundRoot(graph, root)
  {
    var r := DependencyResolver.Resolve(registry, root);
    ok := r.Resolved?;
  }

  method ResolvesEveryRoot(graph: Graph, keys: seq<Id>) returns (ok: bool)
    requires Elements(keys) == graph.Keys
    ensures ok <==> Closed(graph) && Acyclic(EdgesOf(graph))
  {
    hide SoundRoot;
    var registry := Registry(graph);
    assert DependencyResolver.RequiredGraph(registry) == graph;
    ok := true;
    for i := 0 to |keys|
      invariant ok <==> forall j :: 0 <= j < i ==> SoundRoot(graph, keys[j])
    {
      var resolved := ResolvesRoot(graph, registry, keys[i]);
      ok := ok && resolved;
    }
    EveryRootSound(graph, keys);
  }

  method ValidatesEveryRoot(graph: Graph, keys: seq<Id>, maximum: int) returns (ok: bool)
    requires Elements(keys) == graph.Keys && maximum >= |graph| - 1
    ensures ok <==> Closed(graph) && Acyclic(EdgesOf(graph))
  {
    var packages := Packages(graph);
    assert AppStore.DependencyGraph(packages) == graph;
    assert packages.Keys == graph.Keys;
    ok := true;
    for i := 0 to |keys|
      invariant ok <==> forall j :: 0 <= j < i ==> SoundRoot(graph, keys[j])
    {
      assert keys[i] in Elements(keys);
      AppStore.GenerousBound(packages, maximum, keys[i]);
      ok := ok && AppStore.Validate(packages, maximum, packages[keys[i]], {}, 0).Accepted?;
    }
    EveryRootSound(graph, keys);
  }

  /** On one graph the ordering, the resolver from every root and the path-copying validation
      under a generous bound give one answer; the cycle search agrees with it exactly when no
      dependency is missing or there is a cycle anyway, because it skips unknown targets. */
  method CheckersAgree(graph: Graph, keys: seq<Id>, maximum: int)
    returns (acyclic: bool, byPriority: bool, byPosition: bool, resolved: bool, validated: bool)
    requires Distinct(keys) && Elements(keys) == graph.Keys && maximum >= |graph| - 1
    ensures byPriority == byPosition == resolved == validated
    ensures acyclic == resolved <==> Closed(graph) || !Acyclic(EdgesOf(graph))
    ensures resolved ==> acyclic
  {
    acyclic := FindsNoCycle(graph, keys);
    TasksGraph(graph, keys);
    assert (map k | k in graph && k in keys :: graph[k]) == graph by {
      assert forall k :: k in graph ==> k in keys;
    }
    var prioritised := TaskOrder.OrderedByPriority(Tasks(graph, keys));
    var positioned := TaskOrder.OrderedByPosition(Tasks(graph, keys));
    resolved := ResolvesEveryRoot(graph, keys);
    validated := ValidatesEveryRoot(graph, keys, maximum);
    byPriority, byPosition := prioritised.Ordered?, positioned.Ordered?;
  }
}
