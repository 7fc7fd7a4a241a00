/** The knowledge-graph store of knowledge_graph/platform.py and its searches. */
module KnowledgeGraph {
  import opened Wrappers
  import opened Graphs
  import opened Traversal
  import opened ShortestPath
  import opened Sorting
  import opened Components

  datatype Scope = Scope(tenant: string, workspace: string)

  datatype GraphRecord = GraphRecord(id: Id, scope: Scope)

  datatype EntityType =
    Person | Organization | Application | Agent | Model | Dataset | Workflow | Document | Asset | Custom

  datatype Entity = Entity(id: Id, graphId: Id, scope: Scope, kind: EntityType)

  datatype Relationship = Relationship(id: Id, graphId: Id, scope: Scope, sourceId: Id, targetId: Id, weight: real)

  /** KeyError, PermissionError and the ValueErrors of the store. */
  datatype Error = NotFound | AccessDenied | AlreadyExists | Rejected | CrossesGraphs | NegativeWeight |
    UnknownStrategy | InvalidBounds

  datatype Result<T> = Success(value: T) | Failure(error: Error)

  datatype Strategy = BreadthFirst | DepthFirst | Other

  // ---------- what a scope sees of a graph ----------

  predicate Visible(r: Relationship, graphId: Id, scope: Scope) {
    r.graphId == graphId && r.scope == scope
  }

  /** The directed edges of one graph visible in one scope. */
  function Links(relationships: seq<Relationship>, graphId: Id, scope: Scope): (e: Edges)
    ensures forall a, b :: (a, b) in e <==>
              exists r :: r in relationships && r.graphId == graphId && r.scope == scope
                          && r.sourceId == a && r.targetId == b
  {
    set r | r in relationships && Visible(r, graphId, scope) :: (r.sourceId, r.targetId)
  }

  /** The targets of source in insertion order. */
  function Targets(relationships: seq<Relationship>, graphId: Id, scope: Scope, source: Id): (t: seq<Id>)
    ensures forall b :: b in t <==> (source, b) in Links(relationships, graphId, scope)
  {
    if relationships == [] then []
    else
      var n := |relationships| - 1;
      var last := relationships[n];
      assert relationships == relationships[..n] + [last];
      var t := Targets(relationships[..n], graphId, scope, source);
      if Visible(last, graphId, scope) && last.sourceId == source then t + [last.targetId] else t
  }

  /** The adjacency dictionary: the sources of visible edges with their targets. */
  function Adjacents(relationships: seq<Relationship>, graphId: Id, scope: Scope): (g: Graph)
    ensures forall n :: NeighborsOf(g, n) == Targets(relationships, graphId, scope, n)
  {
    var sources := set r | r in relationships && Visible(r, graphId, scope) :: r.sourceId;
    assert forall n :: n !in sources ==> Targets(relationships, graphId, scope, n) == [] by {
      forall n | n !in sources ensures Targets(relationships, graphId, scope, n) == [] {
        NoTargets(relationships, graphId, scope, n);
      }
    }
    map n | n in sources :: Targets(relationships, graphId, scope, n)
  }

  lemma {:induction false} NoTargets(relationships: seq<Relationship>, graphId: Id, scope: Scope, n: Id)
    requires forall r :: r in relationships && Visible(r, graphId, scope) ==> r.sourceId != n
    ensures Targets(relationships, graphId, scope, n) == []
    decreases |relationships|
  {
    if relationships != [] {
      var k := |relationships| - 1;
      assert relationships == relationships[..k] + [relationships[k]];
      NoTargets(relationships[..k], graphId, scope, n);
    }
  }

  /** One more relationship: its target goes behind those its source already has. */
  lemma NextAdjacent(relationships: seq<Relationship>, graphId: Id, scope: Scope, k: nat)
    requires k < |relationships|
    ensures var g, edge := Adjacents(relationships[..k], graphId, scope), relationships[k];
            Adjacents(relationships[..k + 1], graphId, scope) ==
            if Visible(edge, graphId, scope) then g[edge.sourceId := NeighborsOf(g, edge.sourceId) + [edge.targetId]]
            else g
  {
    assert relationships[..k + 1][..k] == relationships[..k];
    assert relationships[..k + 1] == relationships[..k] + [relationships[k]];
  }

  /** The visible edges as source-target pairs, one for each relationship. */
  function Pairs(relationships: seq<Relationship>, graphId: Id, scope: Scope): (p: seq<Pair>)
    ensures forall a, b :: (a, b) in p <==> (a, b) in Links(relationships, graphId, scope)
  {
    if relationships == [] then []
    else
      var n := |relationships| - 1;
      var last := relationships[n];
      assert relationships == relationships[..n] + [last];
      var p := Pairs(relationships[..n], graphId, scope);
      if Visible(last, graphId, scope) then p + [(last.sourceId, last.targetId)] else p
  }

  ghost function Inside(graphId: Id, scope: Scope): Relationship -> bool {
    (x: Relationship) => x.graphId == graphId && x.scope == scope
  }

  ghost function Leaving(graphId: Id, scope: Scope, n: Id): Relationship -> bool {
    (x: Relationship) => x.graphId == graphId && x.scope == scope && x.sourceId == n
  }

  ghost function Entering(graphId: Id, scope: Scope, n: Id): Relationship -> bool {
    (x: Relationship) => x.graphId == graphId && x.scope == scope && x.targetId == n
  }

  lemma {:induction false} PairsCount(relationships: seq<Relationship>, graphId: Id, scope: Scope)
    ensures |Pairs(relationships, graphId, scope)| == |Filter(relationships, Inside(graphId, scope))|
  {
    if relationships != [] {
      var n := |relationships| - 1;
      assert relationships == relationships[..n] + [relationships[n]];
      PairsCount(relationships[..n], graphId, scope);
      FilterAppend(relationships[..n], relationships[n], Inside(graphId, scope));
      hide Filter;
    }
  }

  /** The degree of n counts the visible edges that leave it and those that enter it. */
  lemma {:induction false} DegreeCounts(relationships: seq<Relationship>, graphId: Id, scope: Scope, n: Id)
    ensures Degree(Pairs(relationships, graphId, scope), n) ==
            |Filter(relationships, Leaving(graphId, scope, n))| + |Filter(relationships, Entering(graphId, scope, n))|
  {
    if relationships != [] {
      var k := |relationships| - 1;
      assert relationships == relationships[..k] + [relationships[k]];
      DegreeCounts(relationships[..k], graphId, scope, n);
      FilterAppend(relationships[..k], relationships[k], Leaving(graphId, scope, n));
      FilterAppend(relationships[..k], relationships[k], Entering(graphId, scope, n));
      hide Filter;
    }
  }

  lemma CentralityExact(relationships: seq<Relationship>, graphId: Id, scope: Scope, n: Id, size: nat)
    ensures Centrality(Pairs(relationships, graphId, scope), n, size) ==
            DegreeCentrality(relationships, graphId, scope, n, size)
  {
    DegreeCounts(relationships, graphId, scope, n);
    hide Pairs, Filter, Degree, Leaving, Entering;
  }

  /** The visible edges at n, by the number of the other nodes. */
  ghost function DegreeCentrality(relationships: seq<Relationship>, graphId: Id, scope: Scope, n: Id, size: nat): real {
    (|Filter(relationships, Leaving(graphId, scope, n))| + |Filter(relationships, Entering(graphId, scope, n))|) as real
    / (if size >= 2 then size - 1 else 1) as real
  }

  /** The entities of one graph. */
  function Members(entities: map<Id, Entity>, graphId: Id, scope: Scope): set<Id> {
    set n | n in entities && entities[n].graphId == graphId && entities[n].scope == scope
  }

  /** influence ranks the entities by centrality; entityTypes counts the types that occur. */
  datatype Analytics = Analytics(centrality: map<Id, real>, connectivity: real, communities: seq<seq<Id>>,
                                 nodes: nat, edges: nat, influence: seq<Id>, entityTypes: nat)

  /** The order of sorted(..., reverse=True) on the centralities. */
  function MoreCentral(centrality: map<Id, real>): (Id, Id) -> bool {
    (a: Id, b: Id) =>
      (if a in centrality then centrality[a] else 0.0) >= (if b in centrality then centrality[b] else 0.0)
  }

  lemma MoreCentralOrder(centrality: map<Id, real>)
    ensures TotalPreorder(MoreCentral(centrality))
  {}

  function TypesOf(entities: map<Id, Entity>, members: set<Id>): set<EntityType>
    requires members <= entities.Keys
  {
    set n | n in members :: entities[n].kind
  }

  /** The entities of one scope. */
  function Known(entities: map<Id, Entity>, scope: Scope): set<Id> {
    set n | n in entities && entities[n].scope == scope
  }

  predicate OfKind(entity: Entity, kind: Option<EntityType>) {
    kind.None? || entity.kind == kind.value
  }

  /** The visible edges between the given entities. */
  function Among(graphId: Id, scope: Scope, ids: set<Id>): Relationship -> bool {
    (x: Relationship) => Visible(x, graphId, scope) && x.sourceId in ids && x.targetId in ids
  }

  lemma AmongExact(relationships: seq<Relationship>, graphId: Id, scope: Scope, ids: set<Id>)
    ensures var r := Filter(relationships, Among(graphId, scope, ids));
            && (forall x :: x in r <==> && x in relationships && x.graphId == graphId && x.scope == scope
                                        && x.sourceId in ids && x.targetId in ids)
            && forall x, y :: Before(r, x, y) ==> Before(relationships, x, y)
  {
    FilterKeepsOrder(relationships, Among(graphId, scope, ids));
  }

  /** The entities of the requested type along a visiting order. */
  function Selected(entities: map<Id, Entity>, kind: Option<EntityType>, visit: seq<Id>): seq<Entity>
    requires forall n :: n in visit ==> n in entities
  {
    if visit == [] then []
    else
      var n := |visit| - 1;
      var rest := Selected(entities, kind, visit[..n]);
      if OfKind(entities[visit[n]], kind) then rest + [entities[visit[n]]] else rest
  }

  /** The slice s[offset : offset + limit]. */
  function Page<T>(s: seq<T>, offset: nat, limit: nat): seq<T> {
    if offset >= |s| then [] else if offset + limit >= |s| then s[offset..] else s[offset..offset + limit]
  }

  /** How many of the first n entities of a visiting order are of the requested type. */
  ghost function Matching(entities: map<Id, Entity>, kind: Option<EntityType>, visit: seq<Id>, n: nat): nat
    requires n <= |visit| && forall x :: x in visit ==> x in entities
  {
    if n == 0 then 0
    else
      Matching(entities, kind, visit, n - 1) +
      if kind.Some? ==> entities[visit[n - 1]].kind == kind.value then 1 else 0
  }

  lemma {:induction false} MatchingPrefix(entities: map<Id, Entity>, kind: Option<EntityType>, visit: seq<Id>, m: nat,
                                          n: nat)
    requires n <= m <= |visit| && forall x :: x in visit ==> x in entities
    ensures Matching(entities, kind, visit[..m], n) == Matching(entities, kind, visit, n)
    decreases n
  {
    if n > 0 {
      MatchingPrefix(entities, kind, visit, m, n - 1);
    }
  }

  /** Where each entity of the requested type stands in the selection. */
  lemma {:induction false} SelectedExact(entities: map<Id, Entity>, kind: Option<EntityType>, visit: seq<Id>)
    requires forall x :: x in visit ==> x in entities
    ensures var s := Selected(entities, kind, visit);
            && |s| == Matching(entities, kind, visit, |visit|)
            && forall p :: 0 <= p < |visit| && (kind.Some? ==> entities[visit[p]].kind == kind.value) ==>
                 var k := Matching(entities, kind, visit, p);
                 k < |s| && s[k] == entities[visit[p]]
  {
    if visit != [] {
      var n := |visit| - 1;
      var first := visit[..n];
      SelectedExact(entities, kind, first);
      forall p | 0 <= p <= n ensures Matching(entities, kind, first, p) == Matching(entities, kind, visit, p) {
        MatchingPrefix(entities, kind, visit, n, p);
      }
      hide Matching;
    }
  }

  lemma PageExact<T>(s: seq<T>, offset: nat, limit: nat)
    ensures |Page(s, offset, limit)| ==
            if |s| <= offset then 0 else if |s| - offset < limit then |s| - offset else limit
    ensures forall k :: offset <= k < offset + |Page(s, offset, limit)| ==> Page(s, offset, limit)[k - offset] == s[k]
  {}

  method PushAll(frontier: seq<Entry>, neighbors: seq<Id>, depth: nat) returns (r: seq<Entry>)
    ensures r == frontier + Pushed(neighbors, depth)
  {
    r := frontier;
    for k := 0 to |neighbors|
      invariant r == frontier + Pushed(neighbors, depth)[..k]
    {
      r := r + [Entry(neighbors[k], depth)];
    }
  }

  /** The frontier loop of traverse over a set of known nodes that the edges stay within. */
  method Search(breadth: bool, ghost e: Edges, adjacency: map<Id, seq<Id>>, entities: map<Id, Entity>,
                ghost known: set<Id>, start: Id, maxDepth: nat, kind: Option<EntityType>)
    returns (ordered: seq<Entity>)
    requires known <= entities.Keys && start in known && ClosedIn(adjacency, known)
    requires forall a, b :: (a, b) in e ==> b in known
    requires forall n :: Neighbors(e, n, NeighborsOf(adjacency, n))
    ensures var visit := VisitOrder(breadth, adjacency, known, maxDepth, [Entry(start, 0)], []);
            && (forall n :: n in visit ==> n in known)
            && ordered == Selected(entities, kind, visit)
            && (breadth ==> BreadthFirstOrder(e, start, maxDepth, visit))
            && (!breadth ==> DepthFirstOrder(e, start, maxDepth, known, visit))
  {
    hide VisitOrder, Next, Rest, BreadthFirstOrder, DepthFirstOrder;
    var frontier: seq<Entry> := [Entry(start, 0)];
    var visited: set<Id> := {};
    ordered := [];
    ghost var visit: seq<Id> := [];
    while frontier != []
      invariant forall f :: f in frontier ==> f.node in known
      invariant VisitOrder(breadth, adjacency, known, maxDepth, frontier, visit)
             == VisitOrder(breadth, adjacency, known, maxDepth, [Entry(start, 0)], [])
      invariant visited == Elements(visit) && visited <= known
      invariant ordered == Selected(entities, kind, visit)
      decreases known - visited, |frontier|
    {
      var next, rest := Next(breadth, frontier), Rest(breadth, frontier);
      var node, depth := next.node, next.depth;
      if node in visited || depth > maxDepth {
        VisitSkip(breadth, adjacency, known, maxDepth, frontier, visit);
        frontier := rest;
        continue;
      }
      var neighbors := NeighborsOf(adjacency, node);
      NextKnown(breadth, known, frontier);
      VisitNext(breadth, adjacency, known, maxDepth, frontier, visit,
                rest + Pushed(neighbors, depth + 1), visit + [node]);
      visited := visited + {node};
      var entity := entities[node];
      if OfKind(entity, kind) {
        ordered := ordered + [entity];
      }
      assert (visit + [node])[..|visit|] == visit;
      visit := visit + [node];
      frontier := PushAll(rest, neighbors, depth + 1);
    }
    VisitEnd(breadth, adjacency, known, maxDepth, visit);
    Start(breadth, e, start, maxDepth, known);
    VisitsOrdered(breadth, e, adjacency, start, maxDepth, known, [Entry(start, 0)], [], map[]);
  }

  function IsMember(members: set<Id>): Id -> bool {
    (n: Id) => n in members
  }

  /** The more central entity, or of equally central ones the one stored first. */
  ghost predicate RankedBefore(order: seq<Id>, centrality: map<Id, real>, high: Id, low: Id) {
    && high in centrality && low in centrality && centrality[high] >= centrality[low]
    && (centrality[high] == centrality[low] ==> Before(order, high, low))
  }

  lemma RankedPair(order: seq<Id>, listing: seq<Id>, centrality: map<Id, real>, i: nat, j: nat)
    requires i < j < |listing| && Elements(listing) == centrality.Keys
    requires forall x, y :: Before(listing, x, y) ==> Before(order, x, y)
    ensures var ranked := SortBy(listing, MoreCentral(centrality));
            RankedBefore(order, centrality, ranked[i], ranked[j])
  {
    var ranked := SortBy(listing, MoreCentral(centrality));
    SameElements(ranked, listing);
    MoreCentralOrder(centrality);
    SortedBefore(listing, MoreCentral(centrality), i, j);
    hide SortBy, Before;
    assert ranked[i] in listing && ranked[j] in listing;
  }

  /** Ranking by falling centrality: every member once, equally central ones in dictionary order. */
  lemma RankedExact(order: seq<Id>, members: set<Id>, centrality: map<Id, real>)
    requires Distinct(order) && members <= Elements(order) && centrality.Keys == members
    ensures var ranked := SortBy(Filter(order, IsMember(members)), MoreCentral(centrality));
            && Distinct(ranked) && Elements(ranked) == members
            && forall i, j :: 0 <= i < j < |ranked| ==> RankedBefore(order, centrality, ranked[i], ranked[j])
  {
    var listing := Filter(order, IsMember(members));
    var ranked := SortBy(listing, MoreCentral(centrality));
    FilterKeepsDistinct(order, IsMember(members));
    SameElements(ranked, listing);
    FilterKeepsOrder(order, IsMember(members));
    hide SortBy, Filter, MoreCentral, Before;
    DistinctIff(listing);
    DistinctIff(ranked);
    assert Elements(ranked) == Elements(listing) == members;
    forall i, j | 0 <= i < j < |ranked| ensures RankedBefore(order, centrality, ranked[i], ranked[j]) {
      RankedPair(order, listing, centrality, i, j);
    }
  }

  /** The queue loop of shortest_path. */
  method FindPath(ghost e: Edges, ghost known: set<Id>, adjacency: map<Id, seq<Id>>, source: Id, target: Id)
    returns (path: seq<Id>)
    requires source in known && forall a, b :: (a, b) in e ==> b in known
    requires forall n :: Neighbors(e, n, NeighborsOf(adjacency, n))
    ensures path == [] <==> !Reaches(e, source, target)
    ensures path != [] ==> WalkFromTo(e, path, source, target)
    ensures forall w :: WalkFromTo(e, w, source, target) ==> |path| <= |w|
  {
    hide Searching, Expanding;
    var queue: seq<seq<Id>> := [[source]];
    var visited: set<Id> := {source};
    ghost var level: map<Id, nat> := map[source := 0];
    SearchInit(e, source, target);
    while queue != []
      invariant Searching(e, source, target, queue, level)
      invariant visited == level.Keys && visited <= known
      decreases known - visited, |queue|
    {
      HeadPath(e, source, target, queue, level);
      path := queue[0];
      if End(path) == target {
        FoundShortest(e, source, target, queue, level);
        return;
      }
      var neighbors := NeighborsOf(adjacency, End(path));
      assert Neighbors(e, End(path), neighbors);
      StartExpanding(e, source, target, queue, level, neighbors);
      ghost var before := visited;
      queue := queue[1..];
      ghost var waiting := |queue|;
      for k := 0 to |neighbors|
        invariant Expanding(e, source, target, path, queue, level, neighbors, k)
        invariant visited == level.Keys && before <= visited <= known
        invariant visited == before ==> |queue| == waiting
      {
        if neighbors[k] !in visited {
          assert neighbors[k] in neighbors && (End(path), neighbors[k]) in e;
          ExpandNew(e, source, target, path, queue, level, neighbors, k);
          visited := visited + {neighbors[k]};
          level := level[neighbors[k] := |path|];
          queue := queue + [path + [neighbors[k]]];
        } else {
          ExpandKnown(e, source, target, path, queue, level, neighbors, k);
        }
      }
      DoneExpanding(e, source, target, path, queue, level, neighbors);
    }
    Exhausted(e, source, target, level);
    path := [];
  }

  class KnowledgeGraphPlatform {
    var graphs: map<Id, GraphRecord>
    var entities: map<Id, Entity>
    /** the keys of the entities dictionary, in insertion order */
    var entityOrder: seq<Id>
    /** the values of the relationships dictionary, in insertion order */
    var relationships: seq<Relationship>

    /** Ids are dictionary keys, every entity has its graph's scope, and both ends of an edge
        lie in the edge's graph; the edge's own scope is not constrained. */
    ghost predicate Valid()
      reads this
    {
      && (forall g :: g in graphs ==> graphs[g].id == g)
      && Distinct(entityOrder) && Elements(entityOrder) == entities.Keys
      && (forall n :: n in entities ==>
            entities[n].id == n && entities[n].graphId in graphs &&
                entities[n].scope == graphs[entities[n].graphId].scope)
      && (forall i, j :: 0 <= i < j < |relationships| ==> relationships[i].id != relationships[j].id)
      && (forall r :: r in relationships ==>
            && r.graphId in graphs && r.weight >= 0.0
            && r.sourceId in entities && entities[r.sourceId].graphId == r.graphId
            && r.targetId in entities && entities[r.targetId].graphId == r.graphId)
    }

    constructor ()
      ensures Valid() && graphs == map[] && entities == map[] && entityOrder == [] && relationships == []
    {
      graphs, entities, entityOrder, relationships := map[], map[], [], [];
    }

    function GetGraph(graphId: Id, scope: Scope): (r: Result<GraphRecord>)
      reads this
      ensures r.Success? <==> graphId in graphs && graphs[graphId].scope == scope
    {
      if graphId !in graphs then Failure(NotFound)
      else if graphs[graphId].scope != scope then Failure(AccessDenied)
      else Success(graphs[graphId])
    }

    function GetEntity(entityId: Id, scope: Scope): (r: Result<Entity>)
      reads this
      ensures r.Success? <==> entityId in Known(entities, scope)
      ensures r.Success? ==> r.value == entities[entityId]
    {
      if entityId !in entities then Failure(NotFound)
      else if entities[entityId].scope != scope then Failure(AccessDenied)
      else Success(entities[entityId])
    }

    method CreateGraph(graph: GraphRecord, scope: Scope) returns (r: Result<GraphRecord>)
      requires Valid()
      modifies this`graphs
      ensures Valid()
      ensures r.Success? <==> graph.scope == scope && graph.id !in old(graphs)
      ensures graphs == if r.Success? then old(graphs)[graph.id := graph] else old(graphs)
    {
      if graph.scope != scope {
        return Failure(AccessDenied);
      }
      if graph.id in graphs {
        return Failure(AlreadyExists);
      }
      graphs := graphs[graph.id := graph];
      r := Success(graph);
    }

    /** conforms is the outcome of the schema and secret checks on the entity. */
    method AddEntity(entity: Entity, scope: Scope, conforms: bool) returns (r: Result<Entity>)
      requires Valid()
      modifies this`entities, this`entityOrder
      ensures Valid()
      ensures r.Success? <==>
              && entity.graphId in graphs && graphs[entity.graphId].scope == scope == entity.scope
              && entity.id !in old(entities) && conforms
      ensures entities == if r.Success? then old(entities)[entity.id := entity] else old(entities)
      ensures entityOrder == if r.Success? then old(entityOrder) + [entity.id] else old(entityOrder)
    {
      var graph := GetGraph(entity.graphId, scope);
      if graph.Failure? {
        return Failure(graph.error);
      }
      if entity.scope != scope {
        return Failure(AccessDenied);
      }
      if entity.id in entities {
        return Failure(AlreadyExists);
      }
      if !conforms {
        return Failure(Rejected);
      }
      DistinctSnoc(entityOrder, entity.id);
      entities, entityOrder := entities[entity.id := entity], entityOrder + [entity.id];
      r := Success(entity);
    }

    /** The edge's own tenant and workspace are stored unchecked. */
    method AddRelationship(edge: Relationship, scope: Scope, conforms: bool) returns (r: Result<Relationship>)
      requires Valid()
      modifies this`relationships
      ensures Valid()
      ensures r.Success? <==>
              && edge.graphId in graphs && graphs[edge.graphId].scope == scope
              && edge.sourceId in entities && entities[edge.sourceId].graphId == edge.graphId
              && edge.targetId in entities && entities[edge.targetId].graphId == edge.graphId
              && (forall x :: x in old(relationships) ==> x.id != edge.id)
              && edge.weight >= 0.0 && conforms
      ensures relationships == if r.Success? then old(relationships) + [edge] else old(relationships)
    {
      var graph := GetGraph(edge.graphId, scope);
      if graph.Failure? {
        return Failure(graph.error);
      }
      var source, target := GetEntity(edge.sourceId, scope), GetEntity(edge.targetId, scope);
      if source.Failure? {
        return Failure(source.error);
      }
      if target.Failure? {
        return Failure(target.error);
      }
      if source.value.graphId != edge.graphId || target.value.graphId != edge.graphId {
        return Failure(CrossesGraphs);
      }
      if exists x :: x in relationships && x.id == edge.id {
        return Failure(AlreadyExists);
      }
      if edge.weight < 0.0 {
        return Failure(NegativeWeight);
      }
      if !conforms {
        return Failure(Rejected);
      }
      relationships := relationships + [edge];
      r := Success(edge);
    }

    /** Every visible edge of a graph of this scope ends at known entities. */
    lemma LinksKnown(graphId: Id, scope: Scope)
      requires Valid() && graphId in graphs && graphs[graphId].scope == scope
      ensures forall a, b :: (a, b) in Links(relationships, graphId, scope) ==>
                a in Known(entities, scope) && b in Known(entities, scope)
    {
      var e := Links(relationships, graphId, scope);
      forall a, b | (a, b) in e ensures a in Known(entities, scope) && b in Known(entities, scope) {
        var r :| r in relationships && Visible(r, graphId, scope) && r.sourceId == a && r.targetId == b;
      }
    }

    method Adjacency(graphId: Id, scope: Scope) returns (r: Result<map<Id, seq<Id>>>)
      ensures r.Success? <==> graphId in graphs && graphs[graphId].scope == scope
      ensures r.Success? ==> r.value == Adjacents(relationships, graphId, scope)
    {
      var graph := GetGraph(graphId, scope);
      if graph.Failure? {
        return Failure(graph.error);
      }
      var adjacency: map<Id, seq<Id>> := map[];
      for k := 0 to |relationships|
        invariant adjacency == Adjacents(relationships[..k], graphId, scope)
      {
        var edge := relationships[k];
        NextAdjacent(relationships, graphId, scope, k);
        if Visible(edge, graphId, scope) {
          adjacency := adjacency[edge.sourceId := NeighborsOf(adjacency, edge.sourceId) + [edge.targetId]];
        }
      }
      assert relationships[..|relationships|] == relationships;
      r := Success(adjacency);
    }

    /** The searches see the visible edges and never leave the known entities. */
    lemma AdjacentsKnown(graphId: Id, scope: Scope)
      requires Valid() && graphId in graphs && graphs[graphId].scope == scope
      ensures ClosedIn(Adjacents(relationships, graphId, scope), Known(entities, scope))
      ensures forall n :: Neighbors(Links(relationships, graphId, scope), n,
          NeighborsOf(Adjacents(relationships, graphId, scope), n))
      ensures forall a, b :: (a, b) in Links(relationships, graphId, scope) ==> b in Known(entities, scope)
    {
      LinksKnown(graphId, scope);
      var g := Adjacents(relationships, graphId, scope);
      forall n, m | n in g && m in g[n] ensures m in Known(entities, scope) {
        assert NeighborsOf(g, n) == Targets(relationships, graphId, scope, n);
        assert (n, m) in Links(relationships, graphId, scope);
      }
    }

    /** The nodes a traversal can meet: the entities of its graph, and where it starts. */
    function NodesFrom(graphId: Id, startId: Id, scope: Scope): set<Id>
      reads this
    {
      Members(entities, graphId, scope) + {startId}
    }

    /** The searches of one graph never leave its entities, save for a start outside of them. */
    lemma AdjacentsAmong(graphId: Id, startId: Id, scope: Scope)
      requires Valid() && graphId in graphs && graphs[graphId].scope == scope && startId in Known(entities, scope)
      ensures NodesFrom(graphId, startId, scope) <= Known(entities, scope)
      ensures ClosedIn(Adjacents(relationships, graphId, scope), NodesFrom(graphId, startId, scope))
      ensures forall a, b :: (a, b) in Links(relationships, graphId, scope) ==> b in NodesFrom(graphId, startId, scope)
    {
      LinksAmongMembers(graphId, scope);
      var g := Adjacents(relationships, graphId, scope);
      forall a, b | (a, b) in Links(relationships, graphId, scope) ensures b in Members(entities, graphId, scope) {
        assert (a, b) in Pairs(relationships, graphId, scope);
      }
      forall n, m | n in g && m in g[n] ensures m in Members(entities, graphId, scope) {
        assert NeighborsOf(g, n) == Targets(relationships, graphId, scope, n);
        assert (n, m) in Links(relationships, graphId, scope);
      }
    }

    /** The complete visiting order of a traversal. */
    ghost function VisitsFrom(graphId: Id, startId: Id, scope: Scope, breadth: bool, maxDepth: nat): seq<Id>
      requires Valid() && graphId in graphs && graphs[graphId].scope == scope && startId in Known(entities, scope)
      reads this
    {
      AdjacentsAmong(graphId, startId, scope);
      VisitOrder(breadth, Adjacents(relationships, graphId, scope), NodesFrom(graphId, startId, scope), maxDepth,
                 [Entry(startId, 0)], [])
    }

    /** One page of the visiting order, filtered by type. */
    method Traverse(graphId: Id, startId: Id, scope: Scope, strategy: Strategy, maxDepth: int, limit: int, offset: int,
                    kind: Option<EntityType>)
      returns (r: Result<seq<Entity>>)
      requires Valid()
      ensures r.Success? <==>
              && startId in Known(entities, scope) && !strategy.Other?
              && maxDepth >= 0 && 1 <= limit <= 10_000 && offset >= 0
              && graphId in graphs && graphs[graphId].scope == scope
      ensures r.Success? ==>
                var e, nodes := Links(relationships, graphId, scope), NodesFrom(graphId, startId, scope);
                var visit := VisitsFrom(graphId, startId, scope, strategy.BreadthFirst?, maxDepth);
                && (forall n :: n in visit ==> n in nodes && n in Known(entities, scope))
                && r.value == Page(Selected(entities, kind, visit), offset, limit)
                && var total := Matching(entities, kind, visit, |visit|);
                && |r.value| == (if total <= offset then 0 else if total - offset < limit then total - offset
                                 else limit)
                && (forall p :: 0 <= p < |visit| && (kind.Some? ==> entities[visit[p]].kind == kind.value) ==>
                      var k := Matching(entities, kind, visit, p);
                      offset <= k < offset + |r.value| ==> r.value[k - offset] == entities[visit[p]])
                && (strategy.BreadthFirst? ==> BreadthFirstOrder(e, startId, maxDepth, visit))
                && (strategy.DepthFirst? ==> DepthFirstOrder(e, startId, maxDepth, nodes, visit))
    {
      hide BreadthFirstOrder, DepthFirstOrder, VisitOrder, ClosedIn, Matching, Selected, Page;
      var start := GetEntity(startId, scope);
      if start.Failure? {
        return Failure(start.error);
      }
      if strategy.Other? {
        return Failure(UnknownStrategy);
      }
      if maxDepth < 0 || limit < 1 || limit > 10_000 || offset < 0 {
        return Failure(InvalidBounds);
      }
      var adjacency := Adjacency(graphId, scope);
      if adjacency.Failure? {
        return Failure(adjacency.error);
      }
      AdjacentsKnown(graphId, scope);
      AdjacentsAmong(graphId, startId, scope);
      var ordered := Search(strategy.BreadthFirst?, Links(relationships, graphId, scope), adjacency.value, entities,
                            NodesFrom(graphId, startId, scope), startId, maxDepth, kind);
      SelectedExact(entities, kind, VisitsFrom(graphId, startId, scope, strategy.BreadthFirst?, maxDepth));
      PageExact(ordered, offset, limit);
      r := Success(Page(ordered, offset, limit));
    }

    /** A real path with the fewest edges of any path, or nothing exactly when there is none. */
    method ShortestPath(graphId: Id, sourceId: Id, targetId: Id, scope: Scope) returns (r: Result<seq<Id>>)
      requires Valid()
      ensures r.Success? <==>
              && sourceId in Known(entities, scope) && targetId in Known(entities, scope)
              && graphId in graphs && graphs[graphId].scope == scope
      ensures r.Success? ==>
                var e := Links(relationships, graphId, scope);
                && (r.value == [] <==> !Reaches(e, sourceId, targetId))
                && (r.value != [] ==> WalkFromTo(e, r.value, sourceId, targetId))
                && forall w :: WalkFromTo(e, w, sourceId, targetId) ==> |r.value| <= |w|
    {
      var source, target := GetEntity(sourceId, scope), GetEntity(targetId, scope);
      if source.Failure? {
        return Failure(source.error);
      }
      if target.Failure? {
        return Failure(target.error);
      }
      var adjacency := Adjacency(graphId, scope);
      if adjacency.Failure? {
        return Failure(adjacency.error);
      }
      AdjacentsKnown(graphId, scope);
      var path := FindPath(Links(relationships, graphId, scope), Known(entities, scope), adjacency.value, sourceId,
          targetId);
      r := Success(path);
    }

    /** Both ends of every visible edge are entities of the graph itself. */
    lemma LinksAmongMembers(graphId: Id, scope: Scope)
      requires Valid() && graphId in graphs && graphs[graphId].scope == scope
      ensures forall p :: p in Pairs(relationships, graphId, scope) ==>
                p.0 in Members(entities, graphId, scope) && p.1 in Members(entities, graphId, scope)
      ensures Members(entities, graphId, scope) + Ends(Pairs(relationships, graphId, scope)) ==
          Members(entities, graphId, scope)
    {
      forall p | p in Pairs(relationships, graphId, scope)
        ensures p.0 in Members(entities, graphId, scope) && p.1 in Members(entities, graphId, scope)
      {
        assert (p.0, p.1) in Links(relationships, graphId, scope);
        var r :| r in relationships && Visible(r, graphId, scope) && r.sourceId == p.0 && r.targetId == p.1;
      }
    }

    /** The degrees behind the centralities sum to twice the number of edges. */
    lemma DegreesSum(graphId: Id, scope: Scope, nodes: seq<Id>)
      requires Valid() && graphId in graphs && graphs[graphId].scope == scope
      requires Distinct(nodes) && Elements(nodes) == Members(entities, graphId, scope)
      ensures TotalDegree(Pairs(relationships, graphId, scope), nodes) == 2 * |Pairs(relationships, graphId, scope)|
    {
      LinksAmongMembers(graphId, scope);
      Handshake(Pairs(relationships, graphId, scope), nodes);
    }

    method Analyze(graphId: Id, scope: Scope) returns (r: Result<Analytics>)
      requires Valid()
      ensures r.Success? <==> graphId in graphs && graphs[graphId].scope == scope
      ensures r.Success? ==>
                var members, pairs := Members(entities, graphId, scope), Pairs(relationships, graphId, scope);
                && r.value.nodes == |members| && r.value.edges == |pairs|
                && r.value.centrality.Keys == members
                && (forall n :: n in r.value.centrality <==>
                      n in entities && entities[n].graphId == graphId && entities[n].scope == scope)
                && r.value.edges == |Filter(relationships, Inside(graphId, scope))|
                && (forall n :: n in members ==>
                      r.value.centrality[n] == DegreeCentrality(relationships, graphId, scope, n, |members|))
                && IsPartition(Undirected(pairs), members, r.value.communities)
                && r.value.connectivity == |pairs| as real / (if members == {} then 1 else |members|) as real
                && r.value.influence == SortBy(Filter(entityOrder, IsMember(members)), MoreCentral(r.value.centrality))
                && Distinct(r.value.influence) && Elements(r.value.influence) == members
                && (forall i, j :: 0 <= i < j < |r.value.influence| ==>
                      RankedBefore(entityOrder, r.value.centrality, r.value.influence[i], r.value.influence[j]))
                && r.value.entityTypes == |set n | n in members :: entities[n].kind|
    {
      hide IsPartition, Degree, Centrality, DegreeCentrality, RankedBefore, MoreCentral, SortedBy, SortBy, Filter,
        Undirected, Pairs;
      var graph := GetGraph(graphId, scope);
      if graph.Failure? {
        return Failure(graph.error);
      }
      LinksAmongMembers(graphId, scope);
      var members, pairs := Members(entities, graphId, scope), Pairs(relationships, graphId, scope);
      PairsCount(relationships, graphId, scope);
      forall n { CentralityExact(relationships, graphId, scope, n, |members|); }
      var centrality := map n | n in members :: Centrality(pairs, n, |members|);
      var communities := ConnectedComponents(members, pairs);
      RankedExact(entityOrder, members, centrality);
      var influence := SortBy(Filter(entityOrder, IsMember(members)), MoreCentral(centrality));
      var connectivity := |pairs| as real / (if members == {} then 1 else |members|) as real;
      r := Success(Analytics(centrality, connectivity, communities,
                             |members|, |pairs|, influence, |TypesOf(entities, members)|));
    }

    /** The subgraph induced by the ball of the given depth; the traversal's default page of 100
        cuts larger balls. */
    method Neighborhood(graphId: Id, entityId: Id, scope: Scope, depth: int)
      returns (r: Result<(seq<Entity>, seq<Relationship>)>)
      requires Valid()
      ensures r.Success? <==>
              && entityId in Known(entities, scope) && depth >= 0
              && graphId in graphs && graphs[graphId].scope == scope
      ensures r.Success? ==>
                var visit := VisitsFrom(graphId, entityId, scope, true, depth);
                && BreadthFirstOrder(Links(relationships, graphId, scope), entityId, depth, visit)
                && |r.value.0| == (if |visit| <= 100 then |visit| else 100)
                && (forall i :: 0 <= i < |r.value.0| ==> r.value.0[i].id == visit[i])
                && r.value.1 == Filter(relationships, Among(graphId, scope, Elements(visit[..|r.value.0|])))
                && (forall x :: x in r.value.1 <==>
                      && x in relationships && x.graphId == graphId && x.scope == scope
                      && x.sourceId in visit[..|r.value.0|] && x.targetId in visit[..|r.value.0|])
                && (forall x, y :: Before(r.value.1, x, y) ==> Before(relationships, x, y))
    {
      hide BreadthFirstOrder, DepthFirstOrder, VisitsFrom, Among, Before, Page, Matching, Selected, Filter;
      var nodes := Traverse(graphId, entityId, scope, BreadthFirst, depth, 100, 0, None);
      if nodes.Failure? {
        return Failure(nodes.error);
      }
      ghost var visit := VisitsFrom(graphId, entityId, scope, true, depth);
      SelectedAll(entities, visit);
      FirstPage(Selected(entities, None, visit), visit, nodes.value, 100);
      var ids := set x | x in nodes.value :: x.id;
      var edges := Filter(relationships, Among(graphId, scope, ids));
      AmongExact(relationships, graphId, scope, ids);
      r := Success((nodes.value, edges));
    }
  }

  lemma FirstPage(all: seq<Entity>, visit: seq<Id>, nodes: seq<Entity>, limit: nat)
    requires |all| == |visit| && forall i :: 0 <= i < |visit| ==> all[i].id == visit[i]
    requires nodes == Page(all, 0, limit)
    ensures |nodes| == (if |visit| <= limit then |visit| else limit)
    ensures forall i :: 0 <= i < |nodes| ==> nodes[i].id == visit[i]
    ensures (set x | x in nodes :: x.id) == Elements(visit[..|nodes|])
  {
    forall n | n in visit[..|nodes|] ensures exists x :: x in nodes && x.id == n {
      var i :| 0 <= i < |nodes| && visit[i] == n;
      assert nodes[i] in nodes;
    }
  }

  lemma {:induction false} SelectedAll(entities: map<Id, Entity>, visit: seq<Id>)
    requires forall n :: n in visit ==> n in entities
    ensures |Selected(entities, None, visit)| == |visit|
    ensures forall i :: 0 <= i < |visit| ==> Selected(entities, None, visit)[i] == entities[visit[i]]
  {
    if visit != [] {
      SelectedAll(entities, visit[..|visit| - 1]);
    }
  }
}
