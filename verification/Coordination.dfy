/** The least-loaded allocation behind multi_agent/platform.py's coordinate. */
module Coordination {
  import opened Graphs
  import opened Sorting
  import opened Arithmetic

  /** How many of the tasks handed out so far went to agent. */
  function Load(chosen: seq<Id>, agent: Id): nat {
    if chosen == [] then 0
    else Load(chosen[..|chosen| - 1], agent) + if chosen[|chosen| - 1] == agent then 1 else 0
  }

  function TotalLoad(chosen: seq<Id>, agents: seq<Id>): nat {
    if agents == [] then 0 else TotalLoad(chosen, agents[..|agents| - 1]) + Load(chosen, agents[|agents| - 1])
  }

  /** The sort key (load, id) of the selection. */
  predicate NoHeavier(chosen: seq<Id>, a: Id, b: Id) {
    Load(chosen, a) < Load(chosen, b) || (Load(chosen, a) == Load(chosen, b) && StringLeq(a, b))
  }

  lemma NoHeavierOrder(chosen: seq<Id>, a: Id, b: Id, c: Id)
    ensures NoHeavier(chosen, a, b) || NoHeavier(chosen, b, a)
    ensures NoHeavier(chosen, a, b) && NoHeavier(chosen, b, c) ==> NoHeavier(chosen, a, c)
  {
    StringTotal(a, b);
    if StringLeq(a, b) && StringLeq(b, c) {
      StringTransitive(a, b, c);
    }
  }

  /** Task after task, each to the least loaded of its candidates, the smaller id on a tie. */
  ghost predicate Greedy(candidates: seq<set<Id>>, chosen: seq<Id>) {
    && |chosen| == |candidates|
    && forall i :: 0 <= i < |chosen| ==>
         && chosen[i] in candidates[i]
         && forall b :: b in candidates[i] ==> NoHeavier(chosen[..i], chosen[i], b)
  }

  lemma {:induction false} LoadCounts(chosen: seq<Id>, agent: Id)
    ensures Load(chosen, agent) == multiset(chosen)[agent]
  {
    if chosen != [] {
      var n := |chosen| - 1;
      LoadCounts(chosen[..n], agent);
      assert chosen == chosen[..n] + [chosen[n]];
    }
  }

  /** What greedy means for the choice of one task: every other candidate has been chosen more often
      before, or as often and has the greater id. */
  lemma GreedyMeaning(candidates: seq<set<Id>>, chosen: seq<Id>, i: nat, b: Id)
    requires Greedy(candidates, chosen) && i < |chosen| && b in candidates[i] && b != chosen[i]
    ensures || multiset(chosen[..i])[chosen[i]] < multiset(chosen[..i])[b]
            || (multiset(chosen[..i])[chosen[i]] == multiset(chosen[..i])[b] && Ascends(chosen[i], b))
  {
    LoadCounts(chosen[..i], chosen[i]);
    LoadCounts(chosen[..i], b);
    StringLeqIff(chosen[i], b);
  }

  lemma GreedyPrefix(candidates: seq<set<Id>>, chosen: seq<Id>)
    requires Greedy(candidates, chosen) && chosen != []
    ensures Greedy(candidates[..|chosen| - 1], chosen[..|chosen| - 1])
  {
    var n := |chosen| - 1;
    forall i | 0 <= i < n ensures chosen[..n][..i] == chosen[..i] {}
    forall i, b | 0 <= i < n && b in candidates[..n][i] ensures NoHeavier(chosen[..n][..i], chosen[..n][i], b) {
      assert chosen[..n][..i] == chosen[..i];
    }
  }

  lemma GreedyExtend(candidates: seq<set<Id>>, chosen: seq<Id>, next: set<Id>, selected: Id)
    requires Greedy(candidates, chosen)
    requires selected in next && forall b :: b in next ==> NoHeavier(chosen, selected, b)
    ensures Greedy(candidates + [next], chosen + [selected])
  {
    var c, a := candidates + [next], chosen + [selected];
    forall i | 0 <= i < |a| ensures a[i] in c[i] && forall b :: b in c[i] ==> NoHeavier(a[..i], a[i], b) {
      if i < |chosen| {
        assert a[..i] == chosen[..i];
      } else {
        assert a[..i] == chosen;
      }
    }
  }

  /** Greedy choices are unique: the candidates alone determine the assignment. */
  lemma {:induction false} GreedyUnique(candidates: seq<set<Id>>, a: seq<Id>, b: seq<Id>)
    requires Greedy(candidates, a) && Greedy(candidates, b)
    ensures a == b
    decreases |a|
  {
    if a != [] {
      var n := |a| - 1;
      GreedyPrefix(candidates, a);
      GreedyPrefix(candidates, b);
      GreedyUnique(candidates[..n], a[..n], b[..n]);
      assert NoHeavier(a[..n], a[n], b[n]) && NoHeavier(a[..n], b[n], a[n]);
      StringTotal(a[n], b[n]);
      assert a == a[..n] + [a[n]] && b == b[..n] + [b[n]];
    }
  }

  // ---------- conservation and balance ----------

  lemma {:induction false} TotalGrows(chosen: seq<Id>, selected: Id, agents: seq<Id>)
    requires Distinct(agents)
    ensures TotalLoad(chosen + [selected], agents) == TotalLoad(chosen, agents) + if selected in agents then 1 else 0
  {
    assert (chosen + [selected])[..|chosen|] == chosen;
    if agents != [] {
      var n := |agents| - 1;
      assert agents == agents[..n] + [agents[n]];
      TotalGrows(chosen, selected, agents[..n]);
    }
  }

  lemma {:induction false} NoLoad(agents: seq<Id>)
    ensures TotalLoad([], agents) == 0
  {
    if agents != [] {
      NoLoad(agents[..|agents| - 1]);
    }
  }

  /** Over agents that include everyone chosen, the loads sum to the number of tasks. */
  lemma {:induction false} LoadsSum(chosen: seq<Id>, agents: seq<Id>)
    requires Distinct(agents) && forall a :: a in chosen ==> a in agents
    ensures TotalLoad(chosen, agents) == |chosen|
  {
    if chosen == [] {
      NoLoad(agents);
    } else {
      var n := |chosen| - 1;
      assert chosen == chosen[..n] + [chosen[n]];
      LoadsSum(chosen[..n], agents);
      TotalGrows(chosen[..n], chosen[n], agents);
    }
  }

  /** Two agents that are candidates for every task end within one task of each other. */
  lemma {:induction false} Balanced(candidates: seq<set<Id>>, chosen: seq<Id>, a: Id, b: Id)
    requires Greedy(candidates, chosen)
    requires forall c :: c in candidates ==> a in c && b in c
    ensures Load(chosen, a) <= Load(chosen, b) + 1
    decreases |chosen|
  {
    if chosen != [] {
      var n := |chosen| - 1;
      GreedyPrefix(candidates, chosen);
      Balanced(candidates[..n], chosen[..n], a, b);
      assert candidates[n] in candidates;
      assert chosen[n] == a ==> NoHeavier(chosen[..n], a, b);
    }
  }

  lemma {:induction false} TotalBounds(chosen: seq<Id>, agents: seq<Id>, low: nat, high: nat)
    requires forall a :: a in agents ==> low <= Load(chosen, a) <= high
    ensures |agents| * low <= TotalLoad(chosen, agents) <= |agents| * high
    ensures (exists a :: a in agents && Load(chosen, a) > low) ==> TotalLoad(chosen, agents) > |agents| * low
  {
    if agents == [] {
      assert |agents| * low == 0 == |agents| * high;
    } else {
      var n := |agents| - 1;
      assert agents == agents[..n] + [agents[n]];
      TotalBounds(chosen, agents[..n], low, high);
      NextMultiple(n, low);
      NextMultiple(n, high);
    }
  }

  lemma {:induction false} HeaviestAgent(chosen: seq<Id>, agents: seq<Id>) returns (top: Id)
    requires agents != []
    ensures top in agents && forall a :: a in agents ==> Load(chosen, a) <= Load(chosen, top)
  {
    var n := |agents| - 1;
    assert agents == agents[..n] + [agents[n]];
    if n == 0 {
      top := agents[0];
    } else {
      top := HeaviestAgent(chosen, agents[..n]);
      if Load(chosen, agents[n]) > Load(chosen, top) {
        top := agents[n];
      }
    }
  }

  /** When the same k agents are the candidates for all n tasks, the heaviest load is n / k rounded up. */
  lemma LargestLoad(candidates: seq<set<Id>>, chosen: seq<Id>, agents: seq<Id>) returns (top: Id)
    requires Greedy(candidates, chosen)
    requires Distinct(agents) && agents != [] && forall c :: c in candidates ==> c == Elements(agents)
    ensures top in agents && Load(chosen, top) == Ceiling(|candidates|, |agents|)
    ensures forall a :: a in agents ==> Load(chosen, a) <= Load(chosen, top) <= Load(chosen, a) + 1
  {
    top := HeaviestAgent(chosen, agents);
    var m := Load(chosen, top);
    forall a | a in chosen ensures a in agents {
      var i :| 0 <= i < |chosen| && chosen[i] == a;
      assert candidates[i] in candidates;
    }
    LoadsSum(chosen, agents);
    forall a | a in agents ensures m <= Load(chosen, a) + 1 {
      Balanced(candidates, chosen, top, a);
    }
    TotalBounds(chosen, agents, if m > 0 then m - 1 else 0, m);
    CeilingBounds(|candidates|, |agents|, m);
  }
}
