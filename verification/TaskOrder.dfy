/** The layered (Kahn) task orderings of multi_agent/platform.py and
    autonomous_operations/platform.py: rounds of ready tasks drained from a dictionary. */
module TaskOrder {
  import opened Graphs
  import opened Chains
  import opened Sorting

  /** A task; the autonomous platform uses no priority, capabilities or retry limit. */
  datatype Task = Task(id: Id, name: string, dependencies: seq<Id>, priority: int,
                       requiredCapabilities: set<string>, requiresApproval: bool, retryLimit: int)

  datatype Ordering = Ordered(tasks: seq<Task>) | CyclicDependencies

  function Ids(tasks: seq<Task>): (r: seq<Id>)
    ensures |r| == |tasks|
    ensures forall k :: 0 <= k < |r| ==> r[k] == tasks[k].id
  {
    seq(|tasks|, k requires 0 <= k < |tasks| => tasks[k].id)
  }

  /** Where the task called id stands, or |items|. */
  function Position(items: seq<Task>, id: Id): (r: nat)
    ensures r <= |items|
    ensures r < |items| ==> items[r].id == id
    ensures r == |items| ==> id !in Ids(items)
  {
    if items == [] then 0
    else if items[0].id == id then 0
    else
      var r := Position(items[1..], id);
      assert r == |items| - 1 ==> forall i :: 0 < i < |items| ==> Ids(items)[i] == Ids(items[1..])[i - 1];
      1 + r
  }

  /** Storing under an existing key replaces the value in place; a new key goes last. */
  function Put(items: seq<Task>, t: Task): seq<Task> {
    var p := Position(items, t.id);
    if p < |items| then items[p := t] else items + [t]
  }

  /** The values of the dictionary {task.id: task for task in tasks}, in dictionary order. */
  function Pending(tasks: seq<Task>): seq<Task> {
    if tasks == [] then [] else Put(Pending(tasks[..|tasks| - 1]), tasks[|tasks| - 1])
  }

  /** What each task id depends on; of tasks with one id the last counts. */
  function DependencyGraph(tasks: seq<Task>): Graph {
    if tasks == [] then map[]
    else
      var last := tasks[|tasks| - 1];
      DependencyGraph(tasks[..|tasks| - 1])[last.id := last.dependencies]
  }

  function DependencyEdges(tasks: seq<Task>): Edges {
    EdgesOf(DependencyGraph(tasks))
  }

  /** items holds one task for each key of g, with g's dependencies. */
  ghost predicate Lists(items: seq<Task>, g: Graph) {
    && Distinct(Ids(items))
    && (forall t :: t in items ==> t.id in g && g[t.id] == t.dependencies)
    && (forall n :: n in g ==> n in Ids(items))
  }

  lemma PutLists(items: seq<Task>, g: Graph, t: Task)
    requires Lists(items, g)
    ensures Lists(Put(items, t), g[t.id := t.dependencies])
    ensures t.id !in Ids(items) ==> Put(items, t) == items + [t]
  {
    var p := Position(items, t.id);
    var r := Put(items, t);
    if p < |items| {
      assert Ids(items)[p] == t.id;
      assert Ids(r) == Ids(items);
      forall u | u in r && u != t ensures u.id in g && g[u.id] == u.dependencies && u.id != t.id {
        var i :| 0 <= i < |r| && r[i] == u;
        assert items[i] == u && Ids(items)[i] == u.id;
      }
    } else {
      assert Ids(r) == Ids(items) + [t.id];
      forall u | u in items ensures u.id != t.id {
        var i :| 0 <= i < |items| && items[i] == u;
        assert Ids(items)[i] == u.id;
      }
    }
  }

  lemma {:induction false} PendingLists(tasks: seq<Task>)
    ensures Lists(Pending(tasks), DependencyGraph(tasks))
  {
    if tasks != [] {
      hide Lists, Put;
      var n := |tasks| - 1;
      PendingLists(tasks[..n]);
      PutLists(Pending(tasks[..n]), DependencyGraph(tasks[..n]), tasks[n]);
    }
  }

  lemma {:induction false} PendingUnique(tasks: seq<Task>)
    requires Distinct(Ids(tasks))
    ensures Pending(tasks) == tasks
  {
    if tasks != [] {
      hide Distinct, Ids, Pending, Put;
      var first, last := tasks[..|tasks| - 1], tasks[|tasks| - 1];
      LastId(tasks);
      PendingUnique(first);
      PutNew(first, last);
      PendingAppend(first, last);
      assert tasks == first + [last];
    }
  }

  lemma {:induction false} PendingAppend(tasks: seq<Task>, t: Task)
    ensures Pending(tasks + [t]) == Put(Pending(tasks), t)
  {
    hide Put;
    assert (tasks + [t])[..|tasks|] == tasks;
  }

  lemma PutNew(items: seq<Task>, t: Task)
    requires t.id !in Ids(items)
    ensures Put(items, t) == items + [t]
  {
    forall i | 0 <= i < |items| ensures items[i].id in Ids(items) {
      assert Ids(items)[i] == items[i].id;
    }
  }

  lemma LastId(tasks: seq<Task>)
    requires Distinct(Ids(tasks)) && tasks != []
    ensures Distinct(Ids(tasks[..|tasks| - 1])) && tasks[|tasks| - 1].id !in Ids(tasks[..|tasks| - 1])
  {
    assert Ids(tasks[..|tasks| - 1]) == Ids(tasks)[..|tasks| - 1];
  }

  /** The issubset check on every task's dependencies. */
  predicate AllKnown(tasks: seq<Task>, ids: set<Id>) {
    forall t :: t in tasks ==> forall d :: d in t.dependencies ==> d in ids
  }

  lemma KnownIffClosed(items: seq<Task>)
    requires Lists(items, DependencyGraph(items))
    ensures AllKnown(items, Elements(Ids(items))) <==> Closed(DependencyGraph(items))
  {
    var g := DependencyGraph(items);
    IdsElements(items);
    if Closed(g) {
      forall t, d | t in items && d in t.dependencies ensures d in Ids(items) {
        assert t.id in g && d in g[t.id];
      }
    }
    if AllKnown(items, Elements(Ids(items))) {
      forall a, b | a in g && b in g[a] ensures b in g {
        var t :| t in items && t.id == a;
        assert b in t.dependencies && b in Ids(items);
        var u :| u in items && u.id == b;
      }
    }
  }

  // ---------- draining in rounds ----------

  function NotIn(done: set<Id>): Task -> bool {
    (t: Task) => t.id !in done
  }

  function AllIn(done: set<Id>): Task -> bool {
    (t: Task) => forall d :: d in t.dependencies ==> d in done
  }

  /** The dictionary values left after popping the ids in done. */
  function Without(items: seq<Task>, done: set<Id>): seq<Task> {
    Filter(items, NotIn(done))
  }

  lemma {:induction false} PopNext(items: seq<Task>, done: set<Id>, id: Id)
    ensures Without(Without(items, done), {id}) == Without(items, done + {id})
  {
    if items != [] {
      PopNext(items[1..], done, id);
      if items[0].id !in done {
        var r := Without(items, done);
        assert r[0] == items[0] && r[1..] == Without(items[1..], done);
      }
    }
  }

  lemma {:induction false} WithoutNone(items: seq<Task>)
    ensures Without(items, {}) == items
  {
    if items != [] {
      WithoutNone(items[1..]);
    }
  }

  /** n settles in round k: its longest chain has k edges (see SettledLevel). */
  ghost predicate AtLevel(g: Graph, n: Id, k: nat) {
    Settled(g, n, k + 1) && !Settled(g, n, k)
  }

  /** ordered holds exactly the tasks settled after k rounds, by level and, within one level, by tie. */
  ghost predicate Drained(items: seq<Task>, g: Graph, tie: (Task, Task) -> bool,
                          ordered: seq<Task>, levels: seq<nat>, k: nat) {
    && DependenciesFirst(EdgesOf(g), Ids(ordered))
    && (forall t :: t in ordered ==> t in items)
    && SettledIn(g, ordered, k)
    && SortedByLevel(g, tie, ordered, levels, k)
  }

  ghost predicate SettledIn(g: Graph, ordered: seq<Task>, k: nat) {
    forall n :: n in Ids(ordered) <==> Settled(g, n, k)
  }

  /** levels are the levels of the ordered tasks, all below k; the order is by level, then by tie. */
  ghost predicate SortedByLevel(g: Graph, tie: (Task, Task) -> bool, ordered: seq<Task>, levels: seq<nat>, k: nat) {
    && |levels| == |ordered|
    && (forall i :: 0 <= i < |ordered| ==> levels[i] < k && AtLevel(g, ordered[i].id, levels[i]))
    && (forall i, j :: 0 <= i < j < |ordered| ==>
          levels[i] < levels[j] || (levels[i] == levels[j] && tie(ordered[i], ordered[j])))
  }

  function Repeat(level: nat, times: nat): (r: seq<nat>)
    ensures |r| == times && forall i :: 0 <= i < times ==> r[i] == level
  {
    seq(times, _ => level)
  }

  /** ready lists, by tie, the tasks not yet ordered whose dependencies all are. */
  ghost predicate IsRound(items: seq<Task>, g: Graph, tie: (Task, Task) -> bool, ready: seq<Task>, k: nat) {
    && (forall t :: t in ready <==>
          t in items && !Settled(g, t.id, k) && forall d :: d in t.dependencies ==> Settled(g, d, k))
    && Distinct(Ids(ready))
    && (forall i, j :: 0 <= i < j < |ready| ==> tie(ready[i], ready[j]))
  }

  lemma RoundSettles(items: seq<Task>, g: Graph, tie: (Task, Task) -> bool, ready: seq<Task>, k: nat, n: Id)
    requires Lists(items, g) && IsRound(items, g, tie, ready, k)
    ensures n in Ids(ready) <==> AtLevel(g, n, k)
    ensures Settled(g, n, k) ==> Settled(g, n, k + 1)
  {
    if n in Ids(ready) {
      var i :| 0 <= i < |ready| && Ids(ready)[i] == n;
      assert ready[i] in items && g[n] == ready[i].dependencies;
    }
    if AtLevel(g, n, k) {
      assert n in Ids(items);
      var i :| 0 <= i < |items| && Ids(items)[i] == n;
      assert items[i] in items && items[i].id == n && items[i] in ready;
      var j :| 0 <= j < |ready| && ready[j] == items[i];
      assert Ids(ready)[j] == n;
    }
    if Settled(g, n, k) {
      SettledGrows(g, n, k, k + 1);
    }
  }

  lemma AppendRound(e: Edges, done: seq<Id>, next: seq<Id>)
    requires DependenciesFirst(e, done) && Distinct(next)
    requires forall n :: n in next ==> n !in done && forall b :: (n, b) in e ==> b in done
    ensures DependenciesFirst(e, done + next)
  {
    var r := done + next;
    forall i, j | 0 <= i < j < |r| ensures r[i] != r[j] {
      if j >= |done| {
        assert r[j] == next[j - |done|] && r[j] in next;
        if i >= |done| { assert r[i] == next[i - |done|]; } else { assert r[i] == done[i]; }
      } else {
        assert r[i] == done[i] && r[j] == done[j];
      }
    }
    forall i, b | 0 <= i < |r| && (r[i], b) in e ensures b in r[..i] {
      if i < |done| {
        assert r[i] == done[i] && r[..i] == done[..i];
      } else {
        assert r[i] == next[i - |done|] && r[i] in next && b in done;
        var p :| 0 <= p < |done| && done[p] == b;
        assert r[..i][p] == b;
      }
    }
  }

  lemma RoundLevels(items: seq<Task>, g: Graph, tie: (Task, Task) -> bool,
                    ordered: seq<Task>, levels: seq<nat>, k: nat, ready: seq<Task>)
    requires SortedByLevel(g, tie, ordered, levels, k) && IsRound(items, g, tie, ready, k)
    requires forall n :: n in Ids(ready) ==> AtLevel(g, n, k)
    ensures SortedByLevel(g, tie, ordered + ready, levels + Repeat(k, |ready|), k + 1)
  {
    hide AtLevel, Settled, DependenciesFirst, Distinct;
    var r, l := ordered + ready, levels + Repeat(k, |ready|);
    forall i | 0 <= i < |r| ensures l[i] < k + 1 && AtLevel(g, r[i].id, l[i]) {
      if i >= |ordered| {
        assert r[i].id == Ids(ready)[i - |ordered|];
      }
    }
  }

  /** The nodes of one round: not ordered yet, all their dependencies ordered. */
  lemma RoundReady(items: seq<Task>, g: Graph, tie: (Task, Task) -> bool,
                   ordered: seq<Task>, k: nat, ready: seq<Task>, n: Id)
    requires Lists(items, g) && IsRound(items, g, tie, ready, k) && n in Ids(ready) && SettledIn(g, ordered, k)
    ensures n !in Ids(ordered) && forall b :: (n, b) in EdgesOf(g) ==> b in Ids(ordered)
  {
    var i :| 0 <= i < |ready| && Ids(ready)[i] == n;
    assert ready[i] in ready && ready[i] in items && g[n] == ready[i].dependencies;
  }

  lemma RoundDone(items: seq<Task>, g: Graph, tie: (Task, Task) -> bool,
                  ordered: seq<Task>, levels: seq<nat>, k: nat, ready: seq<Task>)
    requires Lists(items, g) && Drained(items, g, tie, ordered, levels, k) && IsRound(items, g, tie, ready, k)
    ensures Drained(items, g, tie, ordered + ready, levels + Repeat(k, |ready|), k + 1)
  {
    hide DependenciesFirst, Distinct, Settled, SettledIn, SortedByLevel, Lists, AtLevel, EdgesOf;
    RoundFirst(items, g, tie, ordered, k, ready);
    RoundSettled(items, g, tie, ordered, k, ready);
    forall n ensures n in Ids(ready) <==> AtLevel(g, n, k) {
      RoundSettles(items, g, tie, ready, k, n);
    }
    RoundLevels(items, g, tie, ordered, levels, k, ready);
  }

  lemma RoundFirst(items: seq<Task>, g: Graph, tie: (Task, Task) -> bool, ordered: seq<Task>, k: nat, ready: seq<Task>)
    requires Lists(items, g) && IsRound(items, g, tie, ready, k) && SettledIn(g, ordered, k)
    requires DependenciesFirst(EdgesOf(g), Ids(ordered))
    ensures DependenciesFirst(EdgesOf(g), Ids(ordered + ready))
  {
    hide DependenciesFirst, Distinct, Settled, SettledIn, Lists, EdgesOf;
    assert Ids(ordered + ready) == Ids(ordered) + Ids(ready);
    forall n | n in Ids(ready) ensures n !in Ids(ordered) && forall b :: (n, b) in EdgesOf(g) ==> b in Ids(ordered) {
      RoundReady(items, g, tie, ordered, k, ready, n);
    }
    AppendRound(EdgesOf(g), Ids(ordered), Ids(ready));
  }

  lemma RoundSettled(items: seq<Task>, g: Graph, tie: (Task, Task) -> bool, ordered: seq<Task>, k: nat,
                     ready: seq<Task>)
    requires Lists(items, g) && IsRound(items, g, tie, ready, k) && SettledIn(g, ordered, k)
    ensures SettledIn(g, ordered + ready, k + 1)
  {
    hide Distinct, Settled, Lists, IsRound;
    assert Ids(ordered + ready) == Ids(ordered) + Ids(ready);
    forall n ensures n in Ids(ordered + ready) <==> Settled(g, n, k + 1) {
      RoundSettles(items, g, tie, ready, k, n);
    }
  }

  /** When no task is ready the rest waits for a missing or cyclic dependency. */
  lemma {:induction false} StuckForever(g: Graph, k: nat, m: nat, n: Id)
    requires forall x :: Settled(g, x, k + 1) ==> Settled(g, x, k)
    requires Settled(g, n, m)
    ensures Settled(g, n, k)
    decreases m
  {
    if m <= k {
      SettledGrows(g, n, m, k);
    } else {
      forall d | d in g[n] ensures Settled(g, d, k) {
        StuckForever(g, k, m - 1, d);
      }
      assert Settled(g, n, k + 1);
    }
  }

  lemma Stuck(items: seq<Task>, g: Graph, tie: (Task, Task) -> bool, k: nat, t: Task)
    requires Lists(items, g) && IsRound(items, g, tie, [], k)
    requires t in items && !Settled(g, t.id, k)
    ensures !(Closed(g) && Acyclic(EdgesOf(g)))
  {
    var m := |g|;
    if Closed(g) && Acyclic(EdgesOf(g)) {
      AllSettledIffSound(g, m);
      assert Settled(g, t.id, m);
      forall x | Settled(g, x, k + 1) ensures Settled(g, x, k) {
        RoundSettles(items, g, tie, [], k, x);
      }
      StuckForever(g, k, m, t.id);
    }
  }

  lemma AllSettled(items: seq<Task>, g: Graph, k: nat)
    requires Lists(items, g)
    requires forall t :: t in items ==> Settled(g, t.id, k)
    ensures Closed(g) && Acyclic(EdgesOf(g))
  {
    var m := |g| + k;
    forall n | n in g ensures Settled(g, n, m) {
      assert n in Ids(items);
      var i :| 0 <= i < |items| && Ids(items)[i] == n;
      assert items[i] in items;
      SettledGrows(g, n, k, m);
    }
    AllSettledIffSound(g, m);
  }

  lemma SameTask(items: seq<Task>, s: Task, t: Task)
    requires Distinct(Ids(items)) && s in items && t in items && s.id == t.id
    ensures s == t
  {
    var a :| 0 <= a < |items| && items[a] == s;
    var b :| 0 <= b < |items| && items[b] == t;
    assert Ids(items)[a] == Ids(items)[b];
  }

  lemma AllDrained(items: seq<Task>, g: Graph, tie: (Task, Task) -> bool,
                   ordered: seq<Task>, levels: seq<nat>, k: nat)
    requires Lists(items, g) && Drained(items, g, tie, ordered, levels, k)
    requires forall t :: t in items ==> t.id in Ids(ordered)
    ensures Closed(g) && Acyclic(EdgesOf(g))
    ensures Layered(items, g, tie, ordered)
  {
    AllSettled(items, g, k);
    forall t | t in items ensures t in ordered {
      var i :| 0 <= i < |ordered| && Ids(ordered)[i] == t.id;
      assert ordered[i] in ordered;
      SameTask(items, t, ordered[i]);
    }
    DrainedLevels(items, g, tie, ordered, levels, k);
  }

  lemma DrainedLevels(items: seq<Task>, g: Graph, tie: (Task, Task) -> bool,
                      ordered: seq<Task>, levels: seq<nat>, k: nat)
    requires Drained(items, g, tie, ordered, levels, k)
    ensures ByLevel(g, tie, ordered)
    ensures forall t :: t in ordered ==> exists k :: LongestChain(EdgesOf(g), t.id, k)
  {
    var e := EdgesOf(g);
    forall i | 0 <= i < |ordered| ensures LongestChain(e, ordered[i].id, levels[i]) {
      SettledLevel(g, ordered[i].id, levels[i]);
    }
    forall i, j, a, b | 0 <= i < j < |ordered| && LongestChain(e, ordered[i].id, a) && LongestChain(e, ordered[j].id, b)
      ensures a < b || (a == b && tie(ordered[i], ordered[j]))
    {
      LongestChainUnique(e, ordered[i].id, a, levels[i]);
      LongestChainUnique(e, ordered[j].id, b, levels[j]);
    }
  }

  /** Sorted by the length of the longest dependency chain and then by tie. */
  ghost predicate ByLevel(g: Graph, tie: (Task, Task) -> bool, ordered: seq<Task>) {
    forall i, j, a, b ::
      0 <= i < j < |ordered| && LongestChain(EdgesOf(g), ordered[i].id, a) && LongestChain(EdgesOf(g), ordered[j].id, b)
      ==> a < b || (a == b && tie(ordered[i], ordered[j]))
  }

  /** The specification of both orderings: every task once, dependencies first, sorted by the
      length of the longest dependency chain below the task and then by tie. */
  ghost predicate Layered(items: seq<Task>, g: Graph, tie: (Task, Task) -> bool, ordered: seq<Task>) {
    && DependenciesFirst(EdgesOf(g), Ids(ordered))
    && (forall t :: t in ordered <==> t in items)
    && (forall t :: t in ordered ==> exists k :: LongestChain(EdgesOf(g), t.id, k))
    && ByLevel(g, tie, ordered)
  }

  lemma LayeredElements(items: seq<Task>, g: Graph, tie: (Task, Task) -> bool, ordered: seq<Task>)
    requires Layered(items, g, tie, ordered)
    ensures forall t :: t in ordered <==> t in items
  {}

  // ---------- the two orderings ----------

  /** The sort key of multi_agent: higher priority first, then the smaller id. */
  predicate Precedes(a: Task, b: Task) {
    a.priority > b.priority || (a.priority == b.priority && StringLeq(a.id, b.id))
  }

  lemma PrecedesOrder()
    ensures TotalPreorder(Precedes)
  {
    StringOrder();
  }

  /** The order on the tasks' own fields: within one level the higher priority first, then the smaller id. */
  lemma PriorityMeaning(items: seq<Task>, g: Graph, ordered: seq<Task>)
    requires Layered(items, g, Precedes, ordered)
    ensures forall i, j, a, b ::
              0 <= i < j < |ordered| && LongestChain(EdgesOf(g), ordered[i].id, a)
              && LongestChain(EdgesOf(g), ordered[j].id, b) ==>
                a < b || (a == b &&
                  (ordered[i].priority > ordered[j].priority ||
                    (ordered[i].priority == ordered[j].priority && Ascends(ordered[i].id, ordered[j].id))))
  {
    hide LongestChain, EdgesOf, StringLeq, Ascends;
    forall i, j | 0 <= i < j < |ordered|
      ensures StringLeq(ordered[i].id, ordered[j].id) <==> Ascends(ordered[i].id, ordered[j].id)
    {
      StringLeqIff(ordered[i].id, ordered[j].id);
      assert Ids(ordered)[i] != Ids(ordered)[j];
    }
  }

  /** autonomous_operations does not sort a round: it keeps the dictionary order. */
  ghost function InOrderOf(items: seq<Task>): (Task, Task) -> bool {
    (a: Task, b: Task) => Before(items, a, b)
  }

  /** The elements of one round, before any sorting. */
  lemma RoundElements(items: seq<Task>, g: Graph, ordered: seq<Task>, complete: set<Id>, k: nat, t: Task)
    requires Lists(items, g) && complete == Elements(Ids(ordered))
    requires forall n :: n in Ids(ordered) <==> Settled(g, n, k)
    ensures t in Filter(Without(items, complete), AllIn(complete)) <==>
            t in items && !Settled(g, t.id, k) && forall d :: d in t.dependencies ==> Settled(g, d, k)
  {}

  lemma PositionRound(items: seq<Task>, g: Graph, ordered: seq<Task>, complete: set<Id>, k: nat)
    requires Lists(items, g) && complete == Elements(Ids(ordered))
    requires forall n :: n in Ids(ordered) <==> Settled(g, n, k)
    ensures IsRound(items, g, InOrderOf(items), Filter(Without(items, complete), AllIn(complete)), k)
  {
    var pending := Without(items, complete);
    var ready := Filter(pending, AllIn(complete));
    forall t { RoundElements(items, g, ordered, complete, k, t); }
    FilterDistinct(items, NotIn(complete));
    FilterDistinct(pending, AllIn(complete));
    FilterKeepsOrder(items, NotIn(complete));
    FilterKeepsOrder(pending, AllIn(complete));
    forall i, j | 0 <= i < j < |ready| ensures Before(items, ready[i], ready[j]) {
      assert Before(ready, ready[i], ready[j]);
    }
  }

  lemma PriorityRound(items: seq<Task>, g: Graph, ordered: seq<Task>, complete: set<Id>, k: nat)
    requires Lists(items, g) && complete == Elements(Ids(ordered))
    requires forall n :: n in Ids(ordered) <==> Settled(g, n, k)
    ensures IsRound(items, g, Precedes, SortBy(Filter(Without(items, complete), AllIn(complete)), Precedes), k)
  {
    var pending := Without(items, complete);
    var unsorted := Filter(pending, AllIn(complete));
    forall t { RoundElements(items, g, ordered, complete, k, t); }
    FilterDistinct(items, NotIn(complete));
    FilterDistinct(pending, AllIn(complete));
    var ready := SortBy(unsorted, Precedes);
    SameElements(ready, unsorted);
    PermutationDistinct(unsorted, ready);
    PrecedesOrder();
    SortSorted(unsorted, Precedes);
  }

  lemma {:induction false} FilterDistinct(items: seq<Task>, p: Task -> bool)
    requires Distinct(Ids(items))
    ensures Distinct(Ids(Filter(items, p)))
  {
    if items != [] {
      hide Distinct;
      var h, rest := items[0], items[1..];
      assert Ids(items) == [h.id] + Ids(rest);
      DistinctCons(h.id, Ids(rest));
      FilterDistinct(rest, p);
      var tail := Filter(rest, p);
      if p(h) {
        assert Ids(Filter(items, p)) == [h.id] + Ids(tail);
        IdsElements(rest);
        IdsElements(tail);
        DistinctCons(h.id, Ids(tail));
      }
    }
  }

  /** Reordering tasks keeps their ids distinct. */
  lemma PermutationDistinct(a: seq<Task>, b: seq<Task>)
    requires multiset(a) == multiset(b) && Distinct(Ids(a))
    ensures Distinct(Ids(b))
  {
    SameElements(a, b);
    IdsElements(a);
    IdsElements(b);
    DistinctIff(Ids(a));
    DistinctIff(Ids(b));
    assert |a| == |multiset(a)| && |b| == |multiset(b)|;
    assert Elements(Ids(a)) == Elements(Ids(b));
  }

  lemma IdsElements(a: seq<Task>)
    ensures forall n :: n in Ids(a) <==> exists t :: t in a && t.id == n
  {
    forall n | n in Ids(a) ensures exists t :: t in a && t.id == n {
      var i :| 0 <= i < |a| && Ids(a)[i] == n;
      assert a[i] in a;
    }
    forall n | exists t :: t in a && t.id == n ensures n in Ids(a) {
      var t :| t in a && t.id == n;
      var i :| 0 <= i < |a| && a[i] == t;
      assert Ids(a)[i] == n;
    }
  }

  /** Popping one round out of the dictionary, task by task. */
  method TakeRound(ghost items: seq<Task>, ready: seq<Task>, ordered: seq<Task>, complete: set<Id>, pending: seq<Task>)
    returns (ordered': seq<Task>, complete': set<Id>, pending': seq<Task>)
    requires complete == Elements(Ids(ordered)) && pending == Without(items, complete)
    ensures ordered' == ordered + ready
    ensures complete' == Elements(Ids(ordered')) && pending' == Without(items, complete')
  {
    ordered', complete', pending' := ordered, complete, pending;
    for k := 0 to |ready|
      invariant ordered' == ordered + ready[..k]
      invariant complete' == Elements(Ids(ordered')) && pending' == Without(items, complete')
    {
      assert Ids(ordered' + [ready[k]]) == Ids(ordered') + [ready[k].id];
      PopNext(items, complete', ready[k].id);
      ordered' := ordered' + [ready[k]];
      complete' := complete' + {ready[k].id};
      pending' := Without(pending', {ready[k].id});
    }
  }

  method OrderedByPriority(tasks: seq<Task>) returns (r: Ordering)
    ensures r.Ordered? <==> Closed(DependencyGraph(tasks)) && Acyclic(DependencyEdges(tasks))
    ensures r.Ordered? ==> Layered(Pending(tasks), DependencyGraph(tasks), Precedes, r.tasks)
    ensures r.Ordered? ==> forall i, j, a, b ::
              0 <= i < j < |r.tasks| && LongestChain(DependencyEdges(tasks), r.tasks[i].id, a)
              && LongestChain(DependencyEdges(tasks), r.tasks[j].id, b) ==>
                a < b || (a == b &&
                  (r.tasks[i].priority > r.tasks[j].priority ||
                    (r.tasks[i].priority == r.tasks[j].priority && Ascends(r.tasks[i].id, r.tasks[j].id))))
  {
    hide IsRound, Drained, Layered;
    var pending := Pending(tasks);
    ghost var items, g := pending, DependencyGraph(tasks);
    PendingLists(tasks);
    var complete: set<Id>, ordered: seq<Task> := {}, [];
    ghost var levels: seq<nat>, round := [], 0;
    WithoutNone(items);
    NothingDrained(items, g, Precedes);
    while pending != []
      invariant Drained(items, g, Precedes, ordered, levels, round)
      invariant complete == Elements(Ids(ordered)) && pending == Without(items, complete)
      decreases Elements(Ids(items)) - complete
    {
      DrainedSettled(items, g, Precedes, ordered, levels, round);
      PriorityRound(items, g, ordered, complete, round);
      var ready := SortBy(Filter(pending, AllIn(complete)), Precedes);
      assert pending[0] in pending;
      if ready == [] {
        Stuck(items, g, Precedes, round, pending[0]);
        return CyclicDependencies;
      }
      SameElements(ready, Filter(pending, AllIn(complete)));
      assert ready[0] in ready;
      RoundGrows(items, ordered, ready, complete);
      RoundDone(items, g, Precedes, ordered, levels, round, ready);
      ordered, complete, pending := TakeRound(items, ready, ordered, complete, pending);
      levels, round := levels + Repeat(round, |ready|), round + 1;
    }
    AllTaken(items, complete);
    AllDrained(items, g, Precedes, ordered, levels, round);
    PriorityMeaning(items, g, ordered);
    r := Ordered(ordered);
  }

  method OrderedByPosition(tasks: seq<Task>) returns (r: Ordering)
    ensures r.Ordered? <==> Closed(DependencyGraph(tasks)) && Acyclic(DependencyEdges(tasks))
    ensures r.Ordered? ==> Layered(Pending(tasks), DependencyGraph(tasks), InOrderOf(Pending(tasks)), r.tasks)
  {
    hide IsRound, Drained, Layered;
    var pending := Pending(tasks);
    ghost var items, g := pending, DependencyGraph(tasks);
    PendingLists(tasks);
    var complete: set<Id>, ordered: seq<Task> := {}, [];
    ghost var levels: seq<nat>, round := [], 0;
    ghost var tie := InOrderOf(items);
    WithoutNone(items);
    NothingDrained(items, g, tie);
    while pending != []
      invariant Drained(items, g, tie, ordered, levels, round)
      invariant complete == Elements(Ids(ordered)) && pending == Without(items, complete)
      decreases Elements(Ids(items)) - complete
    {
      DrainedSettled(items, g, tie, ordered, levels, round);
      PositionRound(items, g, ordered, complete, round);
      var ready := Filter(pending, AllIn(complete));
      assert pending[0] in pending;
      if ready == [] {
        Stuck(items, g, tie, round, pending[0]);
        return CyclicDependencies;
      }
      assert ready[0] in ready;
      RoundGrows(items, ordered, ready, complete);
      RoundDone(items, g, tie, ordered, levels, round, ready);
      ordered, complete, pending := TakeRound(items, ready, ordered, complete, pending);
      levels, round := levels + Repeat(round, |ready|), round + 1;
    }
    AllTaken(items, complete);
    AllDrained(items, g, tie, ordered, levels, round);
    r := Ordered(ordered);
  }

  lemma NothingDrained(items: seq<Task>, g: Graph, tie: (Task, Task) -> bool)
    ensures Drained(items, g, tie, [], [], 0)
  {}

  lemma DrainedSettled(items: seq<Task>, g: Graph, tie: (Task, Task) -> bool,
                       ordered: seq<Task>, levels: seq<nat>, k: nat)
    requires Drained(items, g, tie, ordered, levels, k)
    ensures forall n :: n in Ids(ordered) <==> Settled(g, n, k)
  {}

  lemma RoundGrows(items: seq<Task>, ordered: seq<Task>, ready: seq<Task>, complete: set<Id>)
    requires complete == Elements(Ids(ordered)) && ready != []
    requires ready[0] in Without(items, complete)
    ensures Elements(Ids(items)) - Elements(Ids(ordered + ready)) < Elements(Ids(items)) - complete
  {
    var id := ready[0].id;
    IdsElements(items);
    assert Ids(ordered + ready)[|ordered|] == id;
    assert Ids(ordered + ready) == Ids(ordered) + Ids(ready);
    assert id in Elements(Ids(items)) - complete;
    assert id !in Elements(Ids(items)) - Elements(Ids(ordered + ready));
  }

  lemma AllTaken(items: seq<Task>, complete: set<Id>)
    requires Without(items, complete) == []
    ensures forall t :: t in items ==> t.id in complete
  {
    forall t | t in items ensures t.id in complete {
      assert t in Without(items, complete) <==> t.id !in complete;
    }
  }
}