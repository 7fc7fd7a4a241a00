/** Plans, coordination and execution of multi_agent/platform.py. */
module MultiAgent {
  import opened Graphs
  import opened Chains
  import opened Sorting
  import opened TaskOrder
  import opened TaskExecution
  import opened Coordination

  datatype AgentStatus = Draft | Provisioned | Ready | Running | Paused | Completed | Archived | Deleted

  datatype TeamRole = Coordinator | Planner | Executor | Reviewer | Supervisor | Observer | CustomRole

  datatype Agent = Agent(id: Id, capabilities: set<string>, status: AgentStatus)

  datatype Team = Team(id: Id, members: map<Id, TeamRole>)

  datatype PlanStatus = DraftPlan | ReadyPlan | RunningPlan | CompletedPlan | PausedPlan

  datatype Plan = Plan(id: Id, tasks: seq<Task>, risks: seq<real>, status: PlanStatus)

  datatype ExecutionStatus = Succeeded | Failed | RolledBack

  datatype Execution = Execution(planId: Id, status: ExecutionStatus, results: map<Id, string>,
                                 failures: seq<string>, checkpoints: seq<map<Id, string>>)

  datatype Error = NotFound | InvalidAgent | InvalidTeam | InvalidTasks | CyclicTasks | InvalidRisk |
    NoEligibleAgent(task: Id)

  datatype Result<T> = Success(value: T) | Failure(error: Error)

  /** Unique ids, existing dependencies and no cycle: what create_plan accepts. */
  ghost predicate Plannable(tasks: seq<Task>) {
    && Distinct(Ids(tasks))
    && (forall t, d :: t in tasks && d in t.dependencies ==> d in Ids(tasks))
    && Acyclic(DependencyEdges(tasks))
  }

  lemma PlannableIffClosed(tasks: seq<Task>)
    requires Distinct(Ids(tasks))
    ensures (forall t, d :: t in tasks && d in t.dependencies ==> d in Ids(tasks)) <==> Closed(DependencyGraph(tasks))
    ensures Lists(tasks, DependencyGraph(tasks)) && Pending(tasks) == tasks
  {
    PendingLists(tasks);
    PendingUnique(tasks);
    KnownIffClosed(tasks);
  }

  /** The checks create_plan makes on the tasks. */
  method CheckTasks(tasks: seq<Task>) returns (r: Result<seq<Task>>)
    ensures r.Success? <==> Plannable(tasks)
  {
    var ids := Elements(Ids(tasks));
    DistinctIff(Ids(tasks));
    if |ids| != |tasks| || !AllKnown(tasks, ids) {
      return Failure(InvalidTasks);
    }
    hide Distinct, Layered;
    PlannableIffClosed(tasks);
    var order := OrderedByPriority(tasks);
    if order.CyclicDependencies? {
      return Failure(CyclicTasks);
    }
    r := Success(order.tasks);
  }

  /** The team members that may take the task. */
  function Candidates(agents: map<Id, Agent>, team: Team, task: Task): (r: set<Id>)
    requires team.members.Keys <= agents.Keys
    ensures r <= team.members.Keys
  {
    set a | a in team.members && team.members[a] in {Executor, Planner, CustomRole}
            && task.requiredCapabilities <= agents[a].capabilities && agents[a].status in {Ready, Running}
  }

  function CandidatesOf(agents: map<Id, Agent>, team: Team, order: seq<Task>): (r: seq<set<Id>>)
    requires team.members.Keys <= agents.Keys
    ensures |r| == |order|
    ensures forall i :: 0 <= i < |r| ==> r[i] == Candidates(agents, team, order[i])
  {
    seq(|order|, i requires 0 <= i < |order| => Candidates(agents, team, order[i]))
  }

  /** min(candidates, key=(load, id)) */
  method LeastLoaded(candidates: set<Id>, loads: map<Id, nat>, ghost chosen: seq<Id>) returns (selected: Id)
    requires candidates != {} && candidates <= loads.Keys
    requires IsLoads(loads, chosen)
    ensures selected in candidates && forall b :: b in candidates ==> NoHeavier(chosen, selected, b)
  {
    selected :| selected in candidates;
    var rest := candidates - {selected};
    NoHeavierOrder(chosen, selected, selected, selected);
    while rest != {}
      invariant rest <= candidates && selected in candidates - rest
      invariant forall b :: b in candidates - rest ==> NoHeavier(chosen, selected, b)
      decreases rest
    {
      var a :| a in rest;
      NoHeavierOrder(chosen, a, selected, selected);
      NoHeavierOrder(chosen, a, a, a);
      if loads[a] < loads[selected] || (loads[a] == loads[selected] && StringLeq(a, selected)) {
        forall b | b in candidates - rest ensures NoHeavier(chosen, a, b) {
          NoHeavierOrder(chosen, a, selected, b);
        }
        selected := a;
      }
      rest := rest - {a};
    }
  }

  /** A member in one of the working roles, with the capabilities asked for, and ready or running. */
  ghost predicate MayTake(agents: map<Id, Agent>, team: Team, task: Task, a: Id) {
    && a in team.members && (team.members[a] == Planner || team.members[a] == Executor || team.members[a] == CustomRole)
    && a in agents && (agents[a].status == Ready || agents[a].status == Running)
    && forall c :: c in task.requiredCapabilities ==> c in agents[a].capabilities
  }

  lemma CandidatesExact(agents: map<Id, Agent>, team: Team, task: Task)
    requires team.members.Keys <= agents.Keys
    ensures forall a :: a in Candidates(agents, team, task) <==> MayTake(agents, team, task, a)
  {}

  /** Whom the allocation picks for the i-th task: of all who may take it the one chosen least often
      before, the smallest id among those. */
  ghost predicate PicksBest(agents: map<Id, Agent>, team: Team, order: seq<Task>, chosen: seq<Id>, i: nat)
    requires i < |order| && i < |chosen|
  {
    && MayTake(agents, team, order[i], chosen[i])
    && forall b :: MayTake(agents, team, order[i], b) && b != chosen[i] ==>
         || multiset(chosen[..i])[chosen[i]] < multiset(chosen[..i])[b]
         || (multiset(chosen[..i])[chosen[i]] == multiset(chosen[..i])[b] && Ascends(chosen[i], b))
  }

  lemma GreedyPicksBest(agents: map<Id, Agent>, team: Team, order: seq<Task>, chosen: seq<Id>)
    requires team.members.Keys <= agents.Keys && Greedy(CandidatesOf(agents, team, order), chosen)
    ensures |chosen| == |order| && forall i :: 0 <= i < |order| ==> PicksBest(agents, team, order, chosen, i)
  {
    hide Ascends;
    forall i | 0 <= i < |order| ensures PicksBest(agents, team, order, chosen, i) {
      CandidatesExact(agents, team, order[i]);
      hide MayTake;
      forall b | MayTake(agents, team, order[i], b) && b != chosen[i]
        ensures || multiset(chosen[..i])[chosen[i]] < multiset(chosen[..i])[b]
                || (multiset(chosen[..i])[chosen[i]] == multiset(chosen[..i])[b] && Ascends(chosen[i], b))
      {
        GreedyMeaning(CandidatesOf(agents, team, order), chosen, i, b);
      }
    }
  }

  /** The error names the first task of the order that nobody may take. */
  ghost predicate FirstWithout(agents: map<Id, Agent>, team: Team, order: seq<Task>, error: Error)
    requires team.members.Keys <= agents.Keys
  {
    exists i :: 0 <= i < |order| && error == NoEligibleAgent(order[i].id) && Candidates(agents, team, order[i]) == {}
      && forall j :: 0 <= j < i ==> Candidates(agents, team, order[j]) != {}
  }

  /** The task loop of coordinate over an already ordered plan. */
  method Allocate(agents: map<Id, Agent>, team: Team, order: seq<Task>)
    returns (r: Result<map<Id, Id>>, ghost chosen: seq<Id>)
    requires team.members.Keys <= agents.Keys && Distinct(Ids(order))
    ensures r.Success? <==> forall t :: t in order ==> Candidates(agents, team, t) != {}
    ensures r.Success? ==>
              && Greedy(CandidatesOf(agents, team, order), chosen)
              && r.value.Keys == Elements(Ids(order))
              && forall i :: 0 <= i < |order| ==> r.value[order[i].id] == chosen[i]
    ensures r.Failure? ==> FirstWithout(agents, team, order, r.error)
  {
    hide Greedy, Distinct, NoHeavier, Candidates, CandidatesOf, Load, IsLoads, Assigns;
    var assignments: map<Id, Id> := map[];
    var loads: map<Id, nat> := map a | a in team.members :: 0;
    chosen := [];
    NothingChosen(agents, team, order, loads);
    for k := 0 to |order|
      invariant Greedy(CandidatesOf(agents, team, order[..k]), chosen) && |chosen| == k
      invariant forall j :: 0 <= j < k ==> Candidates(agents, team, order[j]) != {}
      invariant loads.Keys == team.members.Keys && IsLoads(loads, chosen)
      invariant Assigns(order, k, chosen, assignments)
    {
      var task := order[k];
      var candidates := Candidates(agents, team, task);
      if candidates == {} {
        assert task in order;
        return Failure(NoEligibleAgent(task.id)), [];
      }
      var selected := LeastLoaded(candidates, loads, chosen);
      GreedyExtend(CandidatesOf(agents, team, order[..k]), chosen, candidates, selected);
      OneMore(agents, team, order, k);
      LoadStep(loads, chosen, selected);
      AssignNext(order, k, chosen, assignments, selected);
      assignments := assignments[task.id := selected];
      loads := loads[selected := loads[selected] + 1];
      chosen := chosen + [selected];
    }
    AllAssigned(order, chosen, assignments);
    assert order[..|order|] == order;
    r := Success(assignments);
  }

  lemma NothingChosen(agents: map<Id, Agent>, team: Team, order: seq<Task>, loads: map<Id, nat>)
    requires team.members.Keys <= agents.Keys && forall a :: a in loads ==> loads[a] == 0
    ensures Greedy(CandidatesOf(agents, team, order[..0]), [])
    ensures IsLoads(loads, []) && Assigns(order, 0, [], map[])
  {}

  lemma OneMore(agents: map<Id, Agent>, team: Team, order: seq<Task>, k: nat)
    requires team.members.Keys <= agents.Keys && k < |order|
    ensures CandidatesOf(agents, team, order[..k + 1])
         == CandidatesOf(agents, team, order[..k]) + [Candidates(agents, team, order[k])]
  {}

  ghost predicate IsLoads(loads: map<Id, nat>, chosen: seq<Id>) {
    forall a :: a in loads ==> loads[a] == Load(chosen, a)
  }

  lemma LoadStep(loads: map<Id, nat>, chosen: seq<Id>, selected: Id)
    requires IsLoads(loads, chosen) && selected in loads
    ensures IsLoads(loads[selected := loads[selected] + 1], chosen + [selected])
  {
    assert (chosen + [selected])[..|chosen|] == chosen;
  }

  /** assignments maps the first k tasks of the order to their chosen agents. */
  ghost predicate Assigns(order: seq<Task>, k: nat, chosen: seq<Id>, assignments: map<Id, Id>) {
    && k <= |order| && k == |chosen|
    && (forall i :: 0 <= i < k ==> order[i].id in assignments && assignments[order[i].id] == chosen[i])
    && (forall id :: id in assignments ==> exists i :: 0 <= i < k && order[i].id == id)
  }

  lemma AssignNext(order: seq<Task>, k: nat, chosen: seq<Id>, assignments: map<Id, Id>, selected: Id)
    requires Assigns(order, k, chosen, assignments) && k < |order| && Distinct(Ids(order))
    ensures Assigns(order, k + 1, chosen + [selected], assignments[order[k].id := selected])
  {
    var after := assignments[order[k].id := selected];
    forall i | 0 <= i < k ensures order[i].id != order[k].id {
      assert Ids(order)[i] != Ids(order)[k];
    }
    forall id | id in after ensures exists i :: 0 <= i < k + 1 && order[i].id == id {
      if id in assignments {
        var i :| 0 <= i < k && order[i].id == id;
      } else {
        assert order[k].id == id;
      }
    }
  }

  lemma AllAssigned(order: seq<Task>, chosen: seq<Id>, assignments: map<Id, Id>)
    requires Assigns(order, |order|, chosen, assignments)
    ensures assignments.Keys == Elements(Ids(order))
    ensures forall i :: 0 <= i < |order| ==> order[i].id in assignments && assignments[order[i].id] == chosen[i]
  {
    forall id | id in Ids(order) ensures id in assignments {
      var i :| 0 <= i < |order| && Ids(order)[i] == id;
    }
    forall id | id in assignments ensures id in Ids(order) {
      var i :| 0 <= i < |order| && order[i].id == id;
      assert Ids(order)[i] == id;
    }
  }

  // ---------- execution ----------

  /** while True: ... except: if attempts > retry_limit: raise */
  function Tries(): Task -> nat {
    (t: Task) => if t.retryLimit < 0 then 1 else t.retryLimit + 1
  }

  method RunTask(invoke: Handlers, task: Task, n: nat) returns (entries: seq<Entry>)
    ensures entries == Attempts(invoke, task, n, Tries()(task)) && entries != []
  {
    hide Attempts;
    entries := [];
    var attempts := 0;
    ghost var total := Attempts(invoke, task, n, Tries()(task));
    while true
      invariant attempts == |entries| < Tries()(task)
      invariant total == entries + Attempts(invoke, task, n + attempts, Tries()(task) - attempts)
      decreases Tries()(task) - attempts
    {
      AttemptsStep(invoke, task, n + attempts, Tries()(task) - attempts, entries, total);
      var outcome := invoke(task, n + attempts);
      attempts := attempts + 1;
      entries := entries + [Entry(task, outcome)];
      if outcome.Returned? {
        return;
      }
      if attempts > task.retryLimit {
        return;
      }
    }
  }

  method RunTasks(invoke: Handlers, order: seq<Task>)
    returns (results: map<Id, string>, checkpoints: seq<map<Id, string>>, failure: seq<string>)
    ensures var log := Log(invoke, Tries(), order, 0);
            && results == ResultsOf(Successes(log))
            && Snapshots(Successes(log), checkpoints)
            && failure == if Gave(log) then [] else [log[|log| - 1].outcome.message]
  {
    hide Log, Progress, Attempts, Gave, Snapshots, Successes, ResultsOf, Tries;
    ghost var log: seq<Entry> := [];
    results, checkpoints := map[], [];
    var attempts := 0;
    Begin(invoke, Tries(), order);
    for k := 0 to |order|
      invariant Progress(invoke, Tries(), order, k, log) && attempts == |log|
      invariant results == ResultsOf(Successes(log)) && Snapshots(Successes(log), checkpoints) && Gave(log)
    {
      var entries := RunTask(invoke, order[k], attempts);
      ProgressStep(invoke, Tries(), order, k, log);
      AddTask(log, entries, order[k]);
      ghost var done := Successes(log);
      log, attempts := log + entries, attempts + |entries|;
      var outcome := entries[|entries| - 1].outcome;
      if !outcome.Returned? {
        failure := [outcome.message];
        return;
      }
      OneSnapshot(done, entries[|entries| - 1], checkpoints);
      results := results[order[k].id := outcome.value];
      checkpoints := checkpoints + [results];
    }
    End(invoke, Tries(), order, log);
    failure := [];
  }

  /** checkpoints[i] is exactly the results of the first i + 1 completed tasks. */
  ghost predicate Snapshots(done: seq<Entry>, checkpoints: seq<map<Id, string>>) {
    |checkpoints| == |done| && forall i :: 0 <= i < |done| ==> checkpoints[i] == ResultsOf(done[..i + 1])
  }

  lemma Begin(invoke: Handlers, tries: Task -> nat, order: seq<Task>)
    ensures Progress(invoke, tries, order, 0, []) && Snapshots([], []) && Gave([])
    ensures Successes([]) == [] && ResultsOf([]) == map[]
  {
    assert order[0..] == order;
  }

  lemma OneSnapshot(done: seq<Entry>, last: Entry, checkpoints: seq<map<Id, string>>)
    requires Snapshots(done, checkpoints) && last.outcome.Returned?
    ensures ResultsOf(done + [last]) == ResultsOf(done)[last.task.id := last.outcome.value]
    ensures Snapshots(done + [last], checkpoints + [ResultsOf(done + [last])])
  {
    var after := done + [last];
    assert after[..|done|] == done;
    forall i | 0 <= i < |after| ensures (checkpoints + [ResultsOf(after)])[i] == ResultsOf(after[..i + 1]) {
      if i < |done| {
        assert after[..i + 1] == done[..i + 1];
      } else {
        assert after[..i + 1] == after;
      }
    }
  }

  /** The record of an execution in terms of its log: the completed tasks are a prefix of the
      order and the results, checkpoints, status and failure are those of that prefix. */
  ghost predicate Reflects(execution: Execution, order: seq<Task>, log: seq<Entry>) {
    var done := Successes(log);
    && StopsAt(order, log, done)
    && execution.results == ResultsOf(done)
    && Snapshots(done, execution.checkpoints)
    && (execution.status == if |done| == |order| then Succeeded else if |done| > 0 then RolledBack else Failed)
    && (execution.failures == if |done| == |order| then [] else [log[|log| - 1].outcome.message])
  }

  /** The record of one execution of an ordered plan. */
  method RunPlan(planId: Id, order: seq<Task>, invoke: Handlers) returns (execution: Execution)
    ensures Reflects(execution, order, Log(invoke, Tries(), order, 0)) && execution.planId == planId
  {
    hide Log, Snapshots;
    var results, checkpoints, failures := RunTasks(invoke, order);
    ghost var log := Log(invoke, Tries(), order, 0);
    CompletedPrefix(invoke, Tries(), order, 0);
    assert |checkpoints| == |Successes(log)| by { SnapshotsLength(Successes(log), checkpoints); }
    var status := if failures == [] then Succeeded else if checkpoints != [] then RolledBack else Failed;
    execution := Execution(planId, status, results, failures, checkpoints);
  }

  lemma SnapshotsLength(done: seq<Entry>, checkpoints: seq<map<Id, string>>)
    requires Snapshots(done, checkpoints)
    ensures |checkpoints| == |done|
  {}

  class MultiAgentPlatform {
    var agents: map<Id, Agent>
    var teams: map<Id, Team>
    var plans: map<Id, Plan>
    var executions: seq<Execution>

    ghost predicate Valid()
      reads this
    {
      && (forall a :: a in agents ==> agents[a].id == a)
      && (forall t :: t in teams ==> teams[t].members.Keys <= agents.Keys)
      && (forall p :: p in plans ==> Plannable(plans[p].tasks))
    }

    constructor ()
      ensures Valid() && agents == map[] && teams == map[] && plans == map[] && executions == []
    {
      agents, teams, plans, executions := map[], map[], map[], [];
    }

    method CreateAgent(agent: Agent) returns (r: Result<Agent>)
      requires Valid()
      modifies this`agents
      ensures Valid()
      ensures r.Success? <==> agent.id !in old(agents) && agent.capabilities != {}
      ensures agents == if r.Success? then old(agents)[agent.id := agent] else old(agents)
    {
      if agent.id in agents || agent.capabilities == {} {
        return Failure(InvalidAgent);
      }
      agents := agents[agent.id := agent];
      r := Success(agent);
    }

    method CreateTeam(team: Team) returns (r: Result<Team>)
      requires Valid()
      modifies this`teams
      ensures Valid()
      ensures r.Success? <==> Coordinator in team.members.Values && team.members.Keys <= agents.Keys
      ensures teams == if r.Success? then old(teams)[team.id := team] else old(teams)
    {
      if team.members == map[] || Coordinator !in team.members.Values {
        return Failure(InvalidTeam);
      }
      if !(team.members.Keys <= agents.Keys) {
        return Failure(NotFound);
      }
      teams := teams[team.id := team];
      r := Success(team);
    }

    method CreatePlan(plan: Plan) returns (r: Result<Plan>)
      requires Valid()
      modifies this`plans
      ensures Valid()
      ensures r.Success? <==> Plannable(plan.tasks) && forall x :: x in plan.risks ==> 0.0 <= x <= 1.0
      ensures plans == if r.Success? then old(plans)[plan.id := plan.(status := ReadyPlan)] else old(plans)
    {
      hide Plannable;
      var error := CheckTasks(plan.tasks);
      if error.Failure? {
        return Failure(error.error);
      }
      if exists x :: x in plan.risks && !(0.0 <= x <= 1.0) {
        return Failure(InvalidRisk);
      }
      plans := plans[plan.id := plan.(status := ReadyPlan)];
      r := Success(plan.(status := ReadyPlan));
    }

    /** The order of a stored plan always exists. */
    method PlanOrder(plan: Plan) returns (order: seq<Task>)
      requires Plannable(plan.tasks)
      ensures Layered(plan.tasks, DependencyGraph(plan.tasks), Precedes, order)
      ensures Lists(plan.tasks, DependencyGraph(plan.tasks))
    {
      hide Layered;
      PlannableIffClosed(plan.tasks);
      var r := OrderedByPriority(plan.tasks);
      order := r.tasks;
    }

    /** chosen is the agent of each task of the plan in its order; a failure names the first task of
        that order that nobody may take. */
    method Coordinate(teamId: Id, planId: Id)
      returns (r: Result<map<Id, Id>>, ghost order: seq<Task>, ghost chosen: seq<Id>)
      requires Valid()
      ensures r.Success? <==>
              && teamId in teams && planId in plans
              && forall t :: t in plans[planId].tasks ==> Candidates(agents, teams[teamId], t) != {}
      ensures r.Failure? ==> r.error.NotFound? == (teamId !in teams || planId !in plans)
      ensures teamId in teams && planId in plans ==>
                var tasks := plans[planId].tasks;
                && Layered(tasks, DependencyGraph(tasks), Precedes, order)
                && (r.Failure? ==> FirstWithout(agents, teams[teamId], order, r.error))
                && (r.Failure? ==> exists t :: && t in tasks && r.error == NoEligibleAgent(t.id)
                                               && forall a :: !MayTake(agents, teams[teamId], t, a))
      ensures r.Success? ==>
                && Greedy(CandidatesOf(agents, teams[teamId], order), chosen)
                && r.value.Keys == Elements(Ids(order))
                && |chosen| == |order|
                && forall i :: 0 <= i < |order| ==>
                     r.value[order[i].id] == chosen[i] && PicksBest(agents, teams[teamId], order, chosen, i)
    {
      hide Greedy, MayTake, PicksBest, Candidates, CandidatesOf;
      order, chosen := [], [];
      if teamId !in teams || planId !in plans {
        return Failure(NotFound), [], [];
      }
      var plan := plans[planId];
      var tasks := PlanOrder(plan);
      LayeredPrepared(plan.tasks, DependencyGraph(plan.tasks), Precedes, tasks);
      r, chosen := Allocate(agents, teams[teamId], tasks);
      forall t { CandidatesExact(agents, teams[teamId], t); }
      if r.Success? {
        GreedyPicksBest(agents, teams[teamId], tasks, chosen);
      }
      order := tasks;
    }

    /** invoke gives the outcome of each attempt of this execution, registered handler or default. */
    method ExecutePlan(planId: Id, invoke: Handlers) returns (r: Result<Execution>, ghost order: seq<Task>)
      requires Valid()
      modifies this`plans, this`executions
      ensures Valid()
      ensures r.Success? <==> planId in old(plans)
      ensures r.Failure? ==> plans == old(plans) && executions == old(executions)
      ensures r.Success? ==>
                var tasks := old(plans)[planId].tasks;
                && Layered(tasks, DependencyGraph(tasks), Precedes, order)
                && executions == old(executions) + [r.value]
                && Reflects(r.value, order, Log(invoke, Tries(), order, 0))
                && plans == old(plans)[planId := old(plans)[planId].(
                     status := if r.value.status.Succeeded? then CompletedPlan else PausedPlan)]
    {
      hide Layered, Reflects, Plannable, Log;
      order := [];
      if planId !in plans {
        return Failure(NotFound), [];
      }
      var plan := plans[planId];
      plans := plans[planId := plan.(status := RunningPlan)];
      var tasks := PlanOrder(plan);
      var execution := RunPlan(planId, tasks, invoke);
      order := tasks;
      executions := executions + [execution];
      plans := plans[planId := plan.(status := if execution.status.Succeeded? then CompletedPlan else PausedPlan)];
      r := Success(execution);
    }
  }

  /** No handler of a plan runs before every dependency of its task has succeeded, and no task is
      tried more often than its retry limit plus one (once if the limit is negative). */
  lemma ExecutionSafety(tasks: seq<Task>, order: seq<Task>, invoke: Handlers)
    requires Plannable(tasks) && Layered(tasks, DependencyGraph(tasks), Precedes, order)
    ensures Prepared({}, Log(invoke, Tries(), order, 0))
    ensures forall t :: t in tasks ==>
              AttemptsAt(Log(invoke, Tries(), order, 0), t.id) <= (if t.retryLimit < 0 then 1 else t.retryLimit + 1)
    ensures var log := Log(invoke, Tries(), order, 0);
            !Gave(log) ==>
              var last := log[|log| - 1].task;
              && last in tasks
              && AttemptsAt(log, last.id) == if last.retryLimit < 0 then 1 else last.retryLimit + 1
  {
    hide Log, AttemptsAt, ByLevel, DependenciesFirst, LongestChain;
    PlannableIffClosed(tasks);
    LayeredPrepared(tasks, DependencyGraph(tasks), Precedes, order);
    DependenciesSucceedFirst(invoke, Tries(), order, 0, {});
    if !Gave(Log(invoke, Tries(), order, 0)) {
      AttemptsExhausted(invoke, Tries(), order, 0);
    }
    forall t | t in tasks
      ensures AttemptsAt(Log(invoke, Tries(), order, 0), t.id) <= (if t.retryLimit < 0 then 1 else t.retryLimit + 1)
    {
      assert t in order;
      var k :| 0 <= k < |order| && order[k] == t;
      AttemptsBounded(invoke, Tries(), order, 0, k);
    }
  }
}
