/** Operation lifecycle, approvals and supervised execution of autonomous_operations/platform.py. */
module AutonomousOperations {
  import opened Graphs
  import opened Chains
  import opened TaskOrder
  import opened TaskExecution

  datatype OperationStatus = Draft | Learning | Ready | Running | Paused | Rollback | Completed | Archived | Deleted

  datatype OperationMode = Supervised | Autonomous | Advisory

  datatype ExecutionStatus = WaitingApproval | Succeeded | Failed | RolledBack | ExecutionTimedOut

  datatype Operation = Operation(id: Id, mode: OperationMode, status: OperationStatus, priority: int)

  datatype PolicyType = ExecutionPolicy | SafetyPolicy | ApprovalPolicy | RetryPolicy | RollbackPolicy |
    ResourcePolicy | ConstraintPolicy

  /** limit is the retry limit of the policy's rules. */
  datatype Policy = Policy(id: Id, operationId: Id, kind: PolicyType, limit: int, enabled: bool)

  datatype Safety = Safety(killSwitch: bool, approvalRequired: bool, maximumRisk: real)

  datatype ApprovalStatus = PendingApproval | Approved | RejectedApproval

  datatype Approval = Approval(operationId: Id, status: ApprovalStatus)

  /** A stored task result, or the entry the rollback branch writes under its own key. */
  datatype Value = Output(value: string) | RollbackNote(checkpointRestored: bool)

  datatype Execution = Execution(operationId: Id, status: ExecutionStatus, results: map<Id, Value>, errors: seq<string>,
                                 checkpoints: seq<map<Id, Value>>, attempts: nat)

  datatype Error = NotFound | AlreadyExists | NegativePriority | InvalidTransition | DuplicateTasks | MissingTask |
    CyclicTasks | BlockedByKillSwitch | NotExecutable | RiskOutOfRange | RiskTooHigh | AlreadyDecided | InvalidLimit

  datatype Result<T> = Success(value: T) | Failure(error: Error)

  /** The TRANSITIONS table. */
  function Transitions(s: OperationStatus): set<OperationStatus> {
    match s
    case Draft => {Learning, Ready, Archived, Deleted}
    case Learning => {Ready, Paused, Archived}
    case Ready => {Running, Learning, Archived}
    case Running => {Paused, Rollback, Completed}
    case Paused => {Running, Rollback, Archived}
    case Rollback => {Ready, Completed}
    case Completed => {Learning, Archived}
    case Archived => {Deleted}
    case Deleted => {}
  }

  /** A history of statuses that moves only along the table or stays. */
  ghost predicate Lawful(trail: seq<OperationStatus>) {
    forall i, j :: 0 <= i && j == i + 1 && j < |trail| ==> trail[i] == trail[j] || trail[j] in Transitions(trail[i])
  }

  /** The table read backwards: where each status may be entered from. */
  lemma EnteredFrom(s: OperationStatus, t: OperationStatus)
    ensures t in Transitions(s) <==>
            match t
            case Draft => false
            case Learning => s == Draft || s == Ready || s == Completed
            case Ready => s == Draft || s == Learning || s == Rollback
            case Running => s == Ready || s == Paused
            case Paused => s == Learning || s == Running
            case Rollback => s == Running || s == Paused
            case Completed => s == Running || s == Rollback
            case Archived => s == Draft || s == Learning || s == Ready || s == Paused || s == Completed
            case Deleted => s == Draft || s == Archived
  {}

  /** What is archived or deleted never becomes anything else, and what is deleted stays deleted. */
  lemma {:induction false} ArchivedForever(trail: seq<OperationStatus>, i: nat, j: nat)
    requires Lawful(trail) && i <= j < |trail| && (trail[i] == Archived || trail[i] == Deleted)
    ensures trail[j] == Deleted || (trail[j] == Archived && trail[i] == Archived)
    decreases j - i
  {
    if i < j {
      EnteredFrom(trail[j - 1], trail[j]);
      ArchivedForever(trail, i, j - 1);
    }
  }

  // ---------- one execution ----------

  /** range(limit + 1) attempts: none at all when the limit is negative. */
  function Tries(limit: int): Task -> nat {
    (t: Task) => if limit < 0 then 0 else limit + 1
  }

  function Stored(results: map<Id, string>): map<Id, Value> {
    map id | id in results :: Output(results[id])
  }

  /** checkpoints[i] is exactly the results of the first i + 1 completed tasks. */
  ghost predicate Snapshots(done: seq<Entry>, checkpoints: seq<map<Id, Value>>) {
    |checkpoints| == |done| && forall i :: 0 <= i < |done| ==> checkpoints[i] == Stored(ResultsOf(done[..i + 1]))
  }

  lemma OneSnapshot(done: seq<Entry>, last: Entry, checkpoints: seq<map<Id, Value>>)
    requires Snapshots(done, checkpoints) && last.outcome.Returned?
    ensures Stored(ResultsOf(done + [last])) == Stored(ResultsOf(done))[last.task.id := Output(last.outcome.value)]
    ensures Snapshots(done + [last], checkpoints + [Stored(ResultsOf(done + [last]))])
  {
    var after := done + [last];
    assert after[..|done|] == done;
    forall i | 0 <= i < |after|
      ensures (checkpoints + [Stored(ResultsOf(after))])[i] == Stored(ResultsOf(after[..i + 1]))
    {
      if i < |done| {
        assert after[..i + 1] == done[..i + 1];
      } else {
        assert after[..i + 1] == after;
      }
    }
  }

  /** The attempts at one task within the retry limit. */
  method RunTask(invoke: Handlers, task: Task, n: nat, limit: int) returns (entries: seq<Entry>)
    ensures entries == Attempts(invoke, task, n, Tries(limit)(task))
  {
    hide Attempts;
    entries := [];
    var tries: nat := if limit < 0 then 0 else limit + 1;
    ghost var total := Attempts(invoke, task, n, tries);
    for k := 0 to tries
      invariant |entries| == k && total == entries + Attempts(invoke, task, n + k, tries - k)
    {
      AttemptsStep(invoke, task, n + k, tries - k, entries, total);
      var outcome := invoke(task, n + k);
      entries := entries + [Entry(task, outcome)];
      if outcome.Returned? {
        return;
      }
      if k + 1 == tries {
        return;
      }
    }
    NoAttempts(invoke, task, n + tries);
  }

  lemma NoAttempts(invoke: Handlers, task: Task, n: nat)
    ensures Attempts(invoke, task, n, 0) == []
  {}

  /** How the task loop ended. */
  datatype Ending = Finished | GaveUp(last: Outcome)

  method RunTasks(invoke: Handlers, order: seq<Task>, limit: int)
    returns (results: map<Id, Value>, errors: seq<string>, checkpoints: seq<map<Id, Value>>, attempts: nat,
        ending: Ending)
    ensures var log := Log(invoke, Tries(limit), order, 0);
            && results == Stored(ResultsOf(Successes(log))) && Snapshots(Successes(log), checkpoints)
            && errors == Errors(log) && attempts == |log|
            && ending == if Gave(log) then Finished else GaveUp(log[|log| - 1].outcome)
  {
    hide Log, Progress, Attempts, Gave, Snapshots, Stored;
    ghost var log: seq<Entry> := [];
    results, errors, checkpoints, attempts := map[], [], [], 0;
    Begin(invoke, Tries(limit), order);
    for k := 0 to |order|
      invariant Progress(invoke, Tries(limit), order, k, log) && attempts == |log| && Gave(log)
      invariant results == Stored(ResultsOf(Successes(log))) && Snapshots(Successes(log), checkpoints)
      invariant errors == Errors(log)
    {
      var entries := RunTask(invoke, order[k], attempts, limit);
      ProgressStep(invoke, Tries(limit), order, k, log);
      AddTask(log, entries, order[k]);
      ErrorsConcat(log, entries);
      ghost var done := Successes(log);
      log, attempts, errors := log + entries, attempts + |entries|, errors + Errors(entries);
      if entries != [] {
        var last := entries[|entries| - 1];
        if !last.outcome.Returned? {
          ending := GaveUp(last.outcome);
          return;
        }
        OneSnapshot(done, last, checkpoints);
        results := results[order[k].id := Output(last.outcome.value)];
        checkpoints := checkpoints + [results];
      }
    }
    End(invoke, Tries(limit), order, log);
    ending := Finished;
  }

  lemma Begin(invoke: Handlers, tries: Task -> nat, order: seq<Task>)
    ensures Progress(invoke, tries, order, 0, []) && Snapshots([], []) && Gave([])
    ensures Successes([]) == [] && Stored(ResultsOf([])) == map[] && Errors([]) == []
  {
    assert order[0..] == order;
  }

  /** The record of a started execution in terms of its log. */
  ghost predicate Reflects(execution: Execution, log: seq<Entry>, rollbackPolicy: bool) {
    var done := Successes(log);
    var results := Stored(ResultsOf(done));
    && execution.status == (if Gave(log) then Succeeded
                            else if log[|log| - 1].outcome.TimedOut? then ExecutionTimedOut
                            else if rollbackPolicy then RolledBack else Failed)
    && execution.results == (if execution.status.RolledBack? then results["rollback" := RollbackNote(done != [])]
                              else results)
    && Snapshots(done, execution.checkpoints)
    && execution.errors == Errors(log) && execution.attempts == |log|
  }

  /** The status the operation is left in. */
  function After(status: ExecutionStatus): OperationStatus {
    match status
    case Succeeded => Completed
    case RolledBack => Rollback
    case _ => Paused
  }

  method Perform(operationId: Id, order: seq<Task>, invoke: Handlers, limit: int, rollbackPolicy: bool)
    returns (execution: Execution)
    ensures Reflects(execution, Log(invoke, Tries(limit), order, 0), rollbackPolicy)
    ensures execution.operationId == operationId && !execution.status.WaitingApproval?
  {
    hide Log;
    var results, errors, checkpoints, attempts, ending := RunTasks(invoke, order, limit);
    match ending
    case Finished =>
      execution := Execution(operationId, Succeeded, results, errors, checkpoints, attempts);
    case GaveUp(last) =>
      if last.TimedOut? {
        execution := Execution(operationId, ExecutionTimedOut, results, errors, checkpoints, attempts);
      } else if rollbackPolicy {
        results := results["rollback" := RollbackNote(checkpoints != [])];
        execution := Execution(operationId, RolledBack, results, errors, checkpoints, attempts);
      } else {
        execution := Execution(operationId, Failed, results, errors, checkpoints, attempts);
      }
  }

  /** A completed task keeps its result unless the execution was rolled back and the result stood
      under the name of the rollback note. */
  lemma RollbackKeepsIff(execution: Execution, log: seq<Entry>, rollbackPolicy: bool, id: Id)
    requires Reflects(execution, log, rollbackPolicy) && id in ResultsOf(Successes(log))
    ensures id in execution.results
    ensures execution.results[id] == Output(ResultsOf(Successes(log))[id]) <==>
            !execution.status.RolledBack? || id != "rollback"
  {}

  /** attempts = errors + completed tasks */
  lemma AttemptsConserved(execution: Execution, log: seq<Entry>, rollbackPolicy: bool)
    requires Reflects(execution, log, rollbackPolicy)
    ensures execution.attempts == |execution.errors| + |execution.checkpoints|
  {
    EveryAttemptCounted(log);
  }

  /** With a non-negative limit: dependencies succeed first, attempts are bounded, the completed
      tasks are a prefix of the order, and success means the whole order. A negative limit passes
      over every task and still reports success. */
  lemma ExecutionSafety(items: seq<Task>, g: Graph, tie: (Task, Task) -> bool, order: seq<Task>, invoke: Handlers,
                        limit: int)
    requires Lists(items, g) && Layered(items, g, tie, order)
    ensures var log := Log(invoke, Tries(limit), order, 0);
            var done := Successes(log);
            && Prepared({}, log)
            && (forall k :: 0 <= k < |order| ==> AttemptsAt(log, order[k].id) <= if limit < 0 then 0 else limit + 1)
            && (limit >= 0 ==> StopsAt(order, log, done))
            && (Gave(log) ==> (|done| == |order| <==> limit >= 0 || order == []))
            && (!Gave(log) ==> AttemptsAt(log, log[|log| - 1].task.id) == limit + 1)
  {
    hide Log, AttemptsAt, ByLevel, DependenciesFirst, LongestChain;
    LayeredPrepared(items, g, tie, order);
    forall k | 0 <= k < |order|
      ensures AttemptsAt(Log(invoke, Tries(limit), order, 0), order[k].id) <= Tries(limit)(order[k])
    {
      AttemptsBounded(invoke, Tries(limit), order, 0, k);
    }
    if !Gave(Log(invoke, Tries(limit), order, 0)) {
      AttemptsExhausted(invoke, Tries(limit), order, 0);
    }
    if limit >= 0 {
      assert TriesAll(Tries(limit));
      DependenciesSucceedFirst(invoke, Tries(limit), order, 0, {});
      CompletedPrefix(invoke, Tries(limit), order, 0);
    } else {
      NothingTried(invoke, Tries(limit), order, 0);
    }
  }

  // ---------- run-wide bookkeeping ----------

  datatype Metrics = Metrics(executions: nat, successes: nat, failures: nat, rollbacks: nat)

  function Count(executions: seq<Execution>, status: ExecutionStatus): nat {
    if executions == [] then 0
    else
      var n := |executions| - 1;
      Count(executions[..n], status) + if executions[n].status == status then 1 else 0
  }

  lemma CountGrows(executions: seq<Execution>, execution: Execution, status: ExecutionStatus)
    ensures Count(executions + [execution], status) ==
            Count(executions, status) + if execution.status == status then 1 else 0
  {
    assert (executions + [execution])[..|executions|] == executions;
  }

  /** The counters say how the recorded executions ended. */
  ghost predicate Counted(executions: seq<Execution>, metrics: Metrics) {
    && metrics.executions == |executions|
    && metrics.successes == Count(executions, Succeeded)
    && metrics.failures == Count(executions, Failed) + Count(executions, RolledBack) +
        Count(executions, ExecutionTimedOut)
    && metrics.rollbacks == Count(executions, RolledBack)
  }

  function Bump(metrics: Metrics, status: ExecutionStatus): Metrics {
    var m := metrics.(executions := metrics.executions + 1);
    match status
    case WaitingApproval => m
    case Succeeded => m.(successes := m.successes + 1)
    case RolledBack => m.(failures := m.failures + 1, rollbacks := m.rollbacks + 1)
    case _ => m.(failures := m.failures + 1)
  }

  lemma BumpCounted(executions: seq<Execution>, metrics: Metrics, execution: Execution)
    requires Counted(executions, metrics)
    ensures Counted(executions + [execution], Bump(metrics, execution.status))
  {
    forall status { CountGrows(executions, execution, status); }
  }

  lemma {:induction false} EveryExecutionEnds(executions: seq<Execution>)
    ensures |executions| == Count(executions, WaitingApproval) + Count(executions, Succeeded) +
        Count(executions, Failed)
                            + Count(executions, RolledBack) + Count(executions, ExecutionTimedOut)
  {
    if executions != [] {
      var n := |executions| - 1;
      EveryExecutionEnds(executions[..n]);
    }
  }

  /** Successes, failures and executions still waiting for approval make up all executions. */
  lemma ExecutionsConserved(executions: seq<Execution>, metrics: Metrics)
    requires Counted(executions, metrics)
    ensures metrics.successes + metrics.failures + Count(executions, WaitingApproval) == metrics.executions
    ensures metrics.rollbacks <= metrics.failures
  {
    EveryExecutionEnds(executions);
  }

  /** Every operation's status history is lawful and ends at its present status. */
  ghost predicate Tracked(operations: map<Id, Operation>, trails: map<Id, seq<OperationStatus>>) {
    forall o :: o in operations ==>
      && o in trails && trails[o] != [] && Lawful(trails[o])
      && trails[o][|trails[o]| - 1] == operations[o].status
  }

  lemma TrackMove(operations: map<Id, Operation>, trails: map<Id, seq<OperationStatus>>, o: Id, next: OperationStatus)
    requires Tracked(operations, trails) && o in operations
    requires next == operations[o].status || next in Transitions(operations[o].status)
    ensures o in trails
    ensures Tracked(operations[o := operations[o].(status := next)], trails[o := trails[o] + [next]])
  {
    assert Lawful(trails[o] + [next]);
  }

  /** Ready or running, then running, then wherever the outcome leads: all along the table. */
  lemma TrackRun(operations: map<Id, Operation>, trails: map<Id, seq<OperationStatus>>, o: Id, status: ExecutionStatus)
    requires Tracked(operations, trails) && o in operations && operations[o].status in {Ready, Running}
    ensures o in trails
    ensures Tracked(operations[o := operations[o].(status := After(status))],
        trails[o := trails[o] + [Running, After(status)]])
  {
    TrackMove(operations, trails, o, Running);
    TrackMove(operations[o := operations[o].(status := Running)], trails[o := trails[o] + [Running]], o, After(status));
    assert trails[o] + [Running] + [After(status)] == trails[o] + [Running, After(status)];
  }

  predicate Approves(approvals: map<Id, Approval>, approvalId: Id, operationId: Id) {
    approvalId in approvals && approvals[approvalId] == Approval(operationId, Approved)
  }

  /** The limit of the first enabled retry policy of the operation, or zero. */
  function RetryLimit(policies: seq<Policy>, operationId: Id): (r: int)
    ensures forall k :: 0 <= k < |policies|
              && policies[k].operationId == operationId && policies[k].kind == RetryPolicy && policies[k].enabled
              && (forall j :: 0 <= j < k ==>
                    !(policies[j].operationId == operationId && policies[j].kind == RetryPolicy && policies[j].enabled))
              ==> r == policies[k].limit
    ensures (forall p :: p in policies ==> !(p.operationId == operationId && p.kind == RetryPolicy && p.enabled))
              ==> r == 0
  {
    if policies == [] then 0
    else if policies[0].operationId == operationId && policies[0].kind.RetryPolicy? && policies[0].enabled then
        policies[0].limit
    else RetryLimit(policies[1..], operationId)
  }

  predicate HasRollback(policies: seq<Policy>, operationId: Id) {
    exists p :: p in policies && p.operationId == operationId && p.kind.RollbackPolicy? && p.enabled
  }

  /** Storing under an existing key replaces the value in place; a new key goes last. */
  ghost predicate Replaced(before: seq<Policy>, policy: Policy, after: seq<Policy>) {
    (exists k :: 0 <= k < |before| && before[k].id == policy.id && after == before[k := policy]) ||
    ((forall p :: p in before ==> p.id != policy.id) && after == before + [policy])
  }

  /** What configure_tasks accepts. */
  ghost predicate Orderable(tasks: seq<Task>) {
    && Distinct(Ids(tasks)) && Pending(tasks) == tasks && Lists(tasks, DependencyGraph(tasks))
    && Closed(DependencyGraph(tasks)) && Acyclic(DependencyEdges(tasks))
  }

  lemma NoTasksOrderable()
    ensures Orderable([])
  {
    forall w ensures !IsCycle(DependencyEdges([]), w) {
      assert |w| >= 2 ==> (w[0], w[1]) !in DependencyEdges([]);
    }
  }

  ghost predicate Conserving(executions: seq<Execution>) {
    forall x :: x in executions ==> x.attempts == |x.errors| + |x.checkpoints|
  }

  class AutonomousOperationsPlatform {
    var operations: map<Id, Operation>
    /** the values of the policies dictionary, in dictionary order */
    var policies: seq<Policy>
    var safety: map<Id, Safety>
    var tasks: map<Id, seq<Task>>
    var approvals: map<Id, Approval>
    var executions: seq<Execution>
    var metrics: Metrics
    /** every status each operation ever had, in order */
    ghost var trails: map<Id, seq<OperationStatus>>

    ghost predicate Valid()
      reads this
    {
      && Tracked(operations, trails)
      && Counted(executions, metrics)
      && Conserving(executions)
      && (forall o :: o in tasks ==> Orderable(tasks[o]))
      && (forall o :: o in safety ==> o in operations)
    }

    constructor ()
      ensures Valid() && operations == map[] && executions == []
    {
      operations, policies, safety, tasks, approvals := map[], [], map[], map[], map[];
      executions, metrics, trails := [], Metrics(0, 0, 0, 0), map[];
    }

    method CreateOperation(operation: Operation) returns (r: Result<Operation>)
      requires Valid()
      modifies this`operations, this`trails
      ensures Valid()
      ensures r.Success? <==> operation.id !in old(operations) && operation.priority >= 0
      ensures operations == if r.Success? then old(operations)[operation.id := operation] else old(operations)
      ensures trails == if r.Success? then old(trails)[operation.id := [operation.status]] else old(trails)
    {
      if operation.id in operations {
        return Failure(AlreadyExists);
      }
      if operation.priority < 0 {
        return Failure(NegativePriority);
      }
      operations, trails := operations[operation.id := operation], trails[operation.id := [operation.status]];
      r := Success(operation);
    }

    method SetStatus(operationId: Id, status: OperationStatus) returns (r: Result<Operation>)
      requires Valid()
      modifies this`operations, this`trails
      ensures Valid()
      ensures r.Success? <==>
              operationId in old(operations) && status in Transitions(old(operations)[operationId].status)
      ensures r.Failure? ==> operations == old(operations) && trails == old(trails)
      ensures r.Success? ==>
                && operations == old(operations)[operationId := old(operations)[operationId].(status := status)]
                && trails == old(trails)[operationId := old(trails)[operationId] + [status]]
    {
      if operationId !in operations {
        return Failure(NotFound);
      }
      if status !in Transitions(operations[operationId].status) {
        return Failure(InvalidTransition);
      }
      TrackMove(operations, trails, operationId, status);
      trails := trails[operationId := trails[operationId] + [status]];
      operations := operations[operationId := operations[operationId].(status := status)];
      r := Success(operations[operationId]);
    }

    method ConfigureTasks(operationId: Id, items: seq<Task>) returns (r: Result<seq<Task>>)
      requires Valid()
      modifies this`tasks
      ensures Valid()
      ensures r.Success? <==> operationId in operations && Orderable(items)
      ensures tasks == if r.Success? then old(tasks)[operationId := items] else old(tasks)
    {
      if operationId !in operations {
        return Failure(NotFound);
      }
      var ids := Elements(Ids(items));
      DistinctIff(Ids(items));
      if |ids| != |items| {
        return Failure(DuplicateTasks);
      }
      PendingLists(items);
      PendingUnique(items);
      KnownIffClosed(items);
      if !AllKnown(items, ids) {
        return Failure(MissingTask);
      }
      var order := OrderedByPosition(items);
      if order.CyclicDependencies? {
        return Failure(CyclicTasks);
      }
      tasks := tasks[operationId := items];
      r := Success(items);
    }

    method SetKillSwitch(operationId: Id, enabled: bool) returns (r: Result<Safety>)
      requires Valid()
      modifies this`safety, this`operations, this`trails
      ensures Valid()
      ensures r.Success? <==> operationId in old(safety)
      ensures r.Failure? ==> safety == old(safety) && operations == old(operations) && trails == old(trails)
      ensures r.Success? ==>
                && safety == old(safety)[operationId := old(safety)[operationId].(killSwitch := enabled)]
                && operations == (if enabled && old(operations)[operationId].status.Running?
                                  then old(operations)[operationId := old(operations)[operationId].(status := Paused)]
                                  else old(operations))
                && trails == (if enabled && old(operations)[operationId].status.Running?
                              then old(trails)[operationId := old(trails)[operationId] + [Paused]]
                              else old(trails))
    {
      if operationId !in safety {
        return Failure(NotFound);
      }
      safety := safety[operationId := safety[operationId].(killSwitch := enabled)];
      if enabled && operations[operationId].status.Running? {
        TrackMove(operations, trails, operationId, Paused);
        trails := trails[operationId := trails[operationId] + [Paused]];
        operations := operations[operationId := operations[operationId].(status := Paused)];
      }
      r := Success(safety[operationId]);
    }

    method ConfigureSafety(operationId: Id, config: Safety) returns (r: Result<Safety>)
      requires Valid()
      modifies this`safety
      ensures Valid()
      ensures r.Success? <==> operationId in operations && 0.0 <= config.maximumRisk <= 1.0
      ensures safety == if r.Success? then old(safety)[operationId := config] else old(safety)
    {
      if operationId !in operations {
        return Failure(NotFound);
      }
      if !(0.0 <= config.maximumRisk <= 1.0) {
        return Failure(RiskOutOfRange);
      }
      safety := safety[operationId := config];
      r := Success(config);
    }

    /** A decided approval is never decided again. */
    method DecideApproval(approvalId: Id, approved: bool) returns (r: Result<Approval>)
      requires Valid()
      modifies this`approvals
      ensures Valid()
      ensures r.Success? <==> approvalId in old(approvals) && old(approvals)[approvalId].status.PendingApproval?
      ensures r.Failure? ==> approvals == old(approvals)
      ensures r.Success? ==> approvals == old(approvals)[approvalId :=
                old(approvals)[approvalId].(status := if approved then Approved else RejectedApproval)]
    {
      if approvalId !in approvals {
        return Failure(NotFound);
      }
      if !approvals[approvalId].status.PendingApproval? {
        return Failure(AlreadyDecided);
      }
      var decided := approvals[approvalId].(status := if approved then Approved else RejectedApproval);
      approvals := approvals[approvalId := decided];
      r := Success(approvals[approvalId]);
    }

    /** approvalId is the fresh random id of the request. */
    method RequestApproval(operationId: Id, approvalId: Id) returns (r: Result<Approval>)
      requires Valid() && approvalId !in approvals
      modifies this`approvals
      ensures Valid()
      ensures r.Success? <==> operationId in operations
      ensures approvals == if r.Success? then old(approvals)[approvalId := Approval(operationId, PendingApproval)]
          else old(approvals)
    {
      if operationId !in operations {
        return Failure(NotFound);
      }
      approvals := approvals[approvalId := Approval(operationId, PendingApproval)];
      r := Success(approvals[approvalId]);
    }

    /** Storing a policy keeps the place of one with the same id. */
    method AddPolicy(policy: Policy) returns (r: Result<Policy>)
      requires Valid()
      modifies this`policies
      ensures Valid()
      ensures r.Success? <==> policy.operationId in operations
      ensures r.Failure? ==> policies == old(policies)
      ensures r.Success? ==> Replaced(old(policies), policy, policies)
    {
      if policy.operationId !in operations {
        return Failure(NotFound);
      }
      for k := 0 to |policies|
        invariant policies == old(policies)
        invariant forall j :: 0 <= j < k ==> policies[j].id != policy.id
      {
        if policies[k].id == policy.id {
          policies := policies[k := policy];
          return Success(policy);
        }
      }
      policies := policies + [policy];
      r := Success(policy);
    }

    /** Whether this run must wait for an approval. */
    function NeedsApproval(operationId: Id, order: seq<Task>): bool
      requires operationId in operations
      reads this
    {
      || operations[operationId].mode.Supervised?
      || (operationId in safety && safety[operationId].approvalRequired)
      || exists t :: t in order && t.requiresApproval
    }

    predicate Admits(operationId: Id, risk: real)
      reads this
    {
      && operationId in operations && operations[operationId].status in {Ready, Running} && 0.0 <= risk <= 1.0
      && (operationId in safety ==> !safety[operationId].killSwitch && risk <= safety[operationId].maximumRisk)
    }

    /** order is the order of the operation's tasks. */
    method Execute(operationId: Id, risk: real, approvalId: Id, invoke: Handlers)
      returns (r: Result<Execution>, ghost order: seq<Task>)
      requires Valid()
      modifies this`operations, this`executions, this`metrics, this`trails
      ensures Valid()
      ensures r.Success? <==> old(Admits(operationId, risk))
      ensures r.Failure? ==>
                operations == old(operations) && executions == old(executions) && metrics == old(metrics) &&
                    trails == old(trails)
      ensures r.Success? ==>
                var items := if operationId in tasks then tasks[operationId] else [];
                && Layered(items, DependencyGraph(items), InOrderOf(items), order)
                && executions == old(executions) + [r.value]
                && metrics == Bump(old(metrics), r.value.status)
                && (r.value.status.WaitingApproval? <==>
                      && (|| old(operations)[operationId].mode == Supervised
                          || (operationId in safety && safety[operationId].approvalRequired)
                          || exists t :: t in items && t.requiresApproval)
                      && (approvalId in approvals ==>
                            || approvals[approvalId].operationId != operationId
                            || approvals[approvalId].status != Approved))
                && (r.value.status.WaitingApproval? ==> operations == old(operations) && trails == old(trails))
                && (!r.value.status.WaitingApproval? ==>
                      && Reflects(r.value, Log(invoke, Tries(RetryLimit(policies, operationId)), order, 0),
                                  exists p :: p in policies && p.operationId == operationId
                                              && p.kind == RollbackPolicy && p.enabled)
                      && operationId in operations
                      && operations[operationId].status == (if r.value.status == Succeeded then Completed
                                                            else if r.value.status == RolledBack then Rollback
                                                            else Paused)
                      && operations == old(operations)[operationId :=
                           old(operations)[operationId].(status := After(r.value.status))]
                      && trails == old(trails)[operationId :=
                          old(trails)[operationId] + [Running, After(r.value.status)]])
    {
      hide Tracked, Counted, Orderable, Layered, Log, Reflects, Conserving, RetryLimit, Tries,
        InOrderOf, DependencyGraph, After, HasRollback;
      order := [];
      if operationId !in operations {
        return Failure(NotFound), [];
      }
      if operationId in safety && safety[operationId].killSwitch {
        return Failure(BlockedByKillSwitch), [];
      }
      if operations[operationId].status !in {Ready, Running} {
        return Failure(NotExecutable), [];
      }
      if !(0.0 <= risk <= 1.0) {
        return Failure(RiskOutOfRange), [];
      }
      if operationId in safety && risk > safety[operationId].maximumRisk {
        return Failure(RiskTooHigh), [];
      }
      NoTasksOrderable();
      var items := if operationId in tasks then tasks[operationId] else [];
      var sorted := OrderItems(items);
      order := sorted;
      if NeedsApproval(operationId, sorted) && !Approves(approvals, approvalId, operationId) {
        r := Hold(operationId);
        return;
      }
      r := Carry(operationId, sorted, invoke);
    }

    /** Recording an execution that waits for its approval. */
    method Hold(operationId: Id) returns (r: Result<Execution>)
      requires Valid()
      modifies this`executions, this`metrics
      ensures Valid()
      ensures r == Success(Execution(operationId, WaitingApproval, map[], [], [], 0))
      ensures executions == old(executions) + [r.value] && metrics == Bump(old(metrics), WaitingApproval)
    {
      hide Tracked, Counted, Orderable, Conserving;
      var waiting := Execution(operationId, WaitingApproval, map[], [], [], 0);
      BumpCounted(executions, metrics, waiting);
      StillConserving(executions, waiting);
      executions, metrics := executions + [waiting], Bump(metrics, WaitingApproval);
      r := Success(waiting);
    }

    /** The part of execute after the approval gate: running, then the status of the outcome. */
    method Carry(operationId: Id, order: seq<Task>, invoke: Handlers) returns (r: Result<Execution>)
      requires Valid() && operationId in operations && operations[operationId].status in {Ready, Running}
      modifies this`operations, this`executions, this`metrics, this`trails
      ensures Valid()
      ensures r.Success? && executions == old(executions) + [r.value]
      ensures !r.value.status.WaitingApproval?
      ensures Reflects(r.value, Log(invoke, Tries(RetryLimit(policies, operationId)), order, 0),
          exists p :: p in policies && p.operationId == operationId && p.kind == RollbackPolicy && p.enabled)
      ensures metrics == Bump(old(metrics), r.value.status)
      ensures operations == old(operations)[operationId :=
          old(operations)[operationId].(status := After(r.value.status))]
      ensures operationId in operations
      ensures operations[operationId].status == (if r.value.status == Succeeded then Completed
                                                 else if r.value.status == RolledBack then Rollback
                                                 else Paused)
      ensures operationId in old(trails)
      ensures trails == old(trails)[operationId := old(trails)[operationId] + [Running, After(r.value.status)]]
    {
      hide Tracked, Counted, Orderable, Log, Reflects, Conserving, RetryLimit;
      var operation := operations[operationId];
      operations := operations[operationId := operation.(status := Running)];
      var execution := Perform(operationId, order, invoke, RetryLimit(policies, operationId),
          HasRollback(policies, operationId));
      AttemptsConserved(execution, Log(invoke, Tries(RetryLimit(policies, operationId)), order, 0),
          HasRollback(policies, operationId));
      BumpCounted(executions, metrics, execution);
      StillConserving(executions, execution);
      TrackRun(old(operations), trails, operationId, execution.status);
      executions, metrics := executions + [execution], Bump(metrics, execution.status);
      operations := operations[operationId := operation.(status := After(execution.status))];
      trails := trails[operationId := trails[operationId] + [Running, After(execution.status)]];
      assert operations == old(operations)[operationId := operation.(status := After(execution.status))];
      r := Success(execution);
    }
  }

  method OrderItems(items: seq<Task>) returns (order: seq<Task>)
    requires Orderable(items)
    ensures Layered(items, DependencyGraph(items), InOrderOf(items), order)
    ensures forall t :: t in order <==> t in items
  {
    hide Layered;
    var r := OrderedByPosition(items);
    order := r.tasks;
    LayeredElements(items, DependencyGraph(items), InOrderOf(items), order);
  }

  lemma StillConserving(executions: seq<Execution>, execution: Execution)
    requires Conserving(executions) && execution.attempts == |execution.errors| + |execution.checkpoints|
    ensures Conserving(executions + [execution])
  {}
}
