/** Running ordered tasks against handlers that may fail: bounded attempts per task, results and
    checkpoints. Both executors (multi_agent and autonomous_operations) follow this log. */
module TaskExecution {
  import opened Graphs
  import opened TaskOrder

  /** The outcome of one attempt; a timeout is either raised by the handler or by the deadline
      check in front of it. */
  datatype Outcome = Returned(value: string) | Raised(message: string) | TimedOut(message: string)

  /** The n-th attempt of a whole execution, so handlers may depend on everything before it. */
  type Handlers = (Task, nat) -> Outcome

  datatype Entry = Entry(task: Task, outcome: Outcome)

  /** The attempts at one task: at most left, stopping at the first success. */
  function Attempts(invoke: Handlers, task: Task, n: nat, left: nat): (r: seq<Entry>)
    ensures |r| <= left
    ensures left > 0 ==> |r| > 0
    ensures forall i :: 0 <= i < |r| ==> r[i].task == task
    ensures forall i :: 0 <= i < |r| - 1 ==> !r[i].outcome.Returned?
    ensures |r| > 0 && !r[|r| - 1].outcome.Returned? ==> |r| == left
    decreases left
  {
    if left == 0 then []
    else
      var outcome := invoke(task, n);
      if outcome.Returned? then [Entry(task, outcome)]
      else [Entry(task, outcome)] + Attempts(invoke, task, n + 1, left - 1)
  }

  /** One more failed attempt on the way to the specified ones. */
  lemma AttemptsStep(invoke: Handlers, task: Task, n: nat, left: nat, entries: seq<Entry>, total: seq<Entry>)
    requires left > 0 && total == entries + Attempts(invoke, task, n, left)
    ensures var entry := Entry(task, invoke(task, n));
            if entry.outcome.Returned? || left == 1 then total == entries + [entry]
            else total == (entries + [entry]) + Attempts(invoke, task, n + 1, left - 1)
  {
    var entry := Entry(task, invoke(task, n));
    if !entry.outcome.Returned? {
      Append(entries, [entry], Attempts(invoke, task, n + 1, left - 1));
    }
  }

  predicate Gave(entries: seq<Entry>) {
    entries == [] || entries[|entries| - 1].outcome.Returned?
  }

  /** The log of an execution that starts with attempt n: task by task until one is given up. A
      task with no attempts allowed is passed over. */
  function Log(invoke: Handlers, tries: Task -> nat, order: seq<Task>, n: nat): seq<Entry>
    decreases |order|
  {
    if order == [] then []
    else
      var entries := Attempts(invoke, order[0], n, tries(order[0]));
      if Gave(entries) then entries + Log(invoke, tries, order[1..], n + |entries|) else entries
  }

  function Successes(log: seq<Entry>): (r: seq<Entry>)
    ensures forall x :: x in r <==> x in log && x.outcome.Returned?
    ensures |r| <= |log|
  {
    if log == [] then []
    else
      var n := |log| - 1;
      assert log == log[..n] + [log[n]];
      if log[n].outcome.Returned? then Successes(log[..n]) + [log[n]] else Successes(log[..n])
  }

  function Message(outcome: Outcome): string {
    match outcome
    case Returned(value) => value
    case Raised(message) => message
    case TimedOut(message) => message
  }

  /** The messages of the failed attempts. */
  function Errors(log: seq<Entry>): (r: seq<string>) {
    if log == [] then []
    else
      var n := |log| - 1;
      if log[n].outcome.Returned? then Errors(log[..n]) else Errors(log[..n]) + [log[n].outcome.message]
  }

  lemma {:induction false} EveryAttemptCounted(log: seq<Entry>)
    ensures |log| == |Errors(log)| + |Successes(log)|
  {
    if log != [] {
      EveryAttemptCounted(log[..|log| - 1]);
    }
  }

  /** The results dictionary after the given successes. */
  function ResultsOf(successes: seq<Entry>): (r: map<Id, string>)
    ensures forall id :: id in r <==> exists x :: x in successes && x.task.id == id
  {
    if successes == [] then map[]
    else
      var n := |successes| - 1;
      assert successes == successes[..n] + [successes[n]];
      ResultsOf(successes[..n])[successes[n].task.id := Message(successes[n].outcome)]
  }

  lemma Snoc<T>(a: seq<T>, b: seq<T>)
    requires b != []
    ensures (a + b)[..|a + b| - 1] == a + b[..|b| - 1] && (a + b)[|a + b| - 1] == b[|b| - 1]
  {}

  lemma {:induction false} SuccessesConcat(a: seq<Entry>, b: seq<Entry>)
    ensures Successes(a + b) == Successes(a) + Successes(b)
  {
    if b == [] {
      assert a + b == a;
    } else {
      Snoc(a, b);
      SuccessesConcat(a, b[..|b| - 1]);
    }
  }

  lemma {:induction false} ErrorsConcat(a: seq<Entry>, b: seq<Entry>)
    ensures Errors(a + b) == Errors(a) + Errors(b)
  {
    if b == [] {
      assert a + b == a;
    } else {
      Snoc(a, b);
      ErrorsConcat(a, b[..|b| - 1]);
    }
  }

  /** One task's attempts succeed at most once, at the end. */
  lemma {:induction false} AttemptsSucceedOnce(entries: seq<Entry>)
    requires forall i :: 0 <= i < |entries| - 1 ==> !entries[i].outcome.Returned?
    ensures Successes(entries) == if entries != [] && Gave(entries) then [entries[|entries| - 1]] else []
  {
    if entries != [] {
      var n := |entries| - 1;
      AttemptsSucceedOnce(entries[..n]);
    }
  }

  ghost predicate TriesAll(tries: Task -> nat) {
    forall t :: tries(t) > 0
  }

  /** The completed tasks are a prefix of the order, and an execution that stops early stops
      because the next task used up its attempts. */
  ghost predicate StopsAt(order: seq<Task>, log: seq<Entry>, done: seq<Entry>) {
    && |done| <= |order|
    && (forall i :: 0 <= i < |done| ==> done[i].task == order[i])
    && (|done| < |order| ==> log != [] && !Gave(log) && log[|log| - 1].task == order[|done|])
    && (|done| == |order| ==> Gave(log))
  }

  lemma {:induction false} CompletedPrefix(invoke: Handlers, tries: Task -> nat, order: seq<Task>, n: nat)
    requires TriesAll(tries)
    ensures StopsAt(order, Log(invoke, tries, order, n), Successes(Log(invoke, tries, order, n)))
    decreases |order|
  {
    if order != [] {
      hide StopsAt, Successes;
      var entries := Attempts(invoke, order[0], n, tries(order[0]));
      AttemptsSucceedOnce(entries);
      if !Gave(entries) {
        StopsNow(order, entries);
      } else {
        var rest := Log(invoke, tries, order[1..], n + |entries|);
        CompletedPrefix(invoke, tries, order[1..], n + |entries|);
        SuccessesConcat(entries, rest);
        StopsLater(order, entries, rest, Successes(rest));
      }
    }
  }

  lemma StopsNow(order: seq<Task>, entries: seq<Entry>)
    requires order != [] && entries != [] && !Gave(entries) && entries[|entries| - 1].task == order[0]
    ensures StopsAt(order, entries, [])
  {}

  lemma StopsLater(order: seq<Task>, entries: seq<Entry>, rest: seq<Entry>, done: seq<Entry>)
    requires order != [] && entries != [] && Gave(entries) && entries[|entries| - 1].task == order[0]
    requires StopsAt(order[1..], rest, done)
    ensures StopsAt(order, entries + rest, [entries[|entries| - 1]] + done)
  {}

  /** Nothing is attempted when no attempt is allowed: every task is passed over. */
  lemma {:induction false} NothingTried(invoke: Handlers, tries: Task -> nat, order: seq<Task>, n: nat)
    requires forall t :: tries(t) == 0
    ensures Log(invoke, tries, order, n) == []
    decreases |order|
  {
    if order != [] {
      NothingTried(invoke, tries, order[1..], n);
    }
  }

  /** The attempts at the task called id. */
  function AttemptsAt(log: seq<Entry>, id: Id): nat {
    if log == [] then 0 else AttemptsAt(log[..|log| - 1], id) + if log[|log| - 1].task.id == id then 1 else 0
  }

  lemma {:induction false} AttemptsConcat(a: seq<Entry>, b: seq<Entry>, id: Id)
    ensures AttemptsAt(a + b, id) == AttemptsAt(a, id) + AttemptsAt(b, id)
  {
    if b == [] {
      assert a + b == a;
    } else {
      assert (a + b)[..|a| + |b| - 1] == a + b[..|b| - 1];
      AttemptsConcat(a, b[..|b| - 1], id);
    }
  }

  lemma {:induction false} AttemptsUniform(log: seq<Entry>, task: Task, id: Id)
    requires forall i :: 0 <= i < |log| ==> log[i].task == task
    ensures AttemptsAt(log, id) == if task.id == id then |log| else 0
  {
    if log != [] {
      AttemptsUniform(log[..|log| - 1], task, id);
    }
  }

  lemma {:induction false} LogTasks(invoke: Handlers, tries: Task -> nat, order: seq<Task>, n: nat)
    ensures forall x :: x in Log(invoke, tries, order, n) ==> x.task in order
    decreases |order|
  {
    if order != [] {
      var entries := Attempts(invoke, order[0], n, tries(order[0]));
      LogTasks(invoke, tries, order[1..], n + |entries|);
      assert forall t :: t in order[1..] ==> t in order;
    }
  }

  lemma {:induction false} NoAttemptsAt(log: seq<Entry>, id: Id)
    requires forall x :: x in log ==> x.task.id != id
    ensures AttemptsAt(log, id) == 0
  {
    if log != [] {
      NoAttemptsAt(log[..|log| - 1], id);
      assert log[|log| - 1] in log;
    }
  }

  lemma HeadId(order: seq<Task>)
    requires Distinct(Ids(order)) && order != []
    ensures Distinct(Ids(order[1..])) && order[0].id !in Ids(order[1..])
  {
    assert Ids(order) == [order[0].id] + Ids(order[1..]);
    DistinctCons(order[0].id, Ids(order[1..]));
  }

  /** No task is attempted more often than its limit allows. */
  lemma {:induction false} AttemptsBounded(invoke: Handlers, tries: Task -> nat, order: seq<Task>, n: nat, k: nat)
    requires Distinct(Ids(order)) && k < |order|
    ensures AttemptsAt(Log(invoke, tries, order, n), order[k].id) <= tries(order[k])
    decreases |order|
  {
    hide Attempts;
    var id := order[k].id;
    var entries := Attempts(invoke, order[0], n, tries(order[0]));
    var rest := Log(invoke, tries, order[1..], n + |entries|);
    assert Log(invoke, tries, order, n) == if Gave(entries) then entries + rest else entries;
    hide Log;
    HeadId(order);
    assert order[k].id == Ids(order)[k];
    hide Distinct;
    AttemptsUniform(entries, order[0], id);
    AttemptsConcat(entries, rest, id);
    if k > 0 {
      assert order[1..][k - 1] == order[k];
      assert Ids(order[1..])[k - 1] == id;
      AttemptsBounded(invoke, tries, order[1..], n + |entries|, k - 1);
    } else {
      LogTasks(invoke, tries, order[1..], n + |entries|);
      IdsElements(order[1..]);
      assert forall x :: x in rest ==> x.task.id in Ids(order[1..]);
      NoAttemptsAt(rest, id);
    }
  }

  /** A task that is given up has used up its attempts. */
  lemma {:induction false} AttemptsExhausted(invoke: Handlers, tries: Task -> nat, order: seq<Task>, n: nat)
    requires Distinct(Ids(order)) && !Gave(Log(invoke, tries, order, n))
    ensures var log := Log(invoke, tries, order, n);
            var last := log[|log| - 1].task;
            last in order && AttemptsAt(log, last.id) == tries(last)
    decreases |order|
  {
    hide Attempts;
    var entries := Attempts(invoke, order[0], n, tries(order[0]));
    var rest := Log(invoke, tries, order[1..], n + |entries|);
    assert Log(invoke, tries, order, n) == if Gave(entries) then entries + rest else entries;
    hide Log;
    if Gave(entries) {
      assert rest == [] ==> entries + rest == entries;
      HeadId(order);
      hide Distinct;
      AttemptsExhausted(invoke, tries, order[1..], n + |entries|);
      var last := rest[|rest| - 1].task;
      IdsElements(order[1..]);
      AttemptsUniform(entries, order[0], last.id);
      AttemptsConcat(entries, rest, last.id);
    } else {
      AttemptsUniform(entries, order[0], order[0].id);
    }
  }

  /** Every dependency of the task attempted at position i succeeded before position i. */
  ghost predicate Prepared(before: set<Id>, log: seq<Entry>) {
    forall i, d :: 0 <= i < |log| && d in log[i].task.dependencies ==>
      d in before || exists x :: x in log[..i] && x.outcome.Returned? && x.task.id == d
  }

  /** No attempt at a task happens before all its dependencies have succeeded, from a state where
      the tasks called before have succeeded. */
  lemma {:induction false} DependenciesSucceedFirst(invoke: Handlers, tries: Task -> nat, order: seq<Task>, n: nat,
                                                    before: set<Id>)
    requires TriesAll(tries)
    requires forall i, d :: 0 <= i < |order| && d in order[i].dependencies ==> d in before || d in Ids(order[..i])
    ensures Prepared(before, Log(invoke, tries, order, n))
    decreases |order|
  {
    if order != [] {
      var entries := Attempts(invoke, order[0], n, tries(order[0]));
      var log := Log(invoke, tries, order, n);
      var rest := Log(invoke, tries, order[1..], n + |entries|);
      forall d | d in order[0].dependencies ensures d in before {
        assert Ids(order[..0]) == [];
      }
      if Gave(entries) {
        var after := before + {order[0].id};
        forall i, d | 0 <= i < |order[1..]| && d in order[1..][i].dependencies
          ensures d in after || d in Ids(order[1..][..i])
        {
          assert order[..i + 1] == [order[0]] + order[1..][..i];
          assert Ids(order[..i + 1]) == [order[0].id] + Ids(order[1..][..i]);
        }
        DependenciesSucceedFirst(invoke, tries, order[1..], n + |entries|, after);
        PreparedAfter(before, entries, rest, order[0]);
      }
    }
  }

  lemma PreparedAfter(before: set<Id>, entries: seq<Entry>, rest: seq<Entry>, task: Task)
    requires entries != [] && Gave(entries) && forall i :: 0 <= i < |entries| ==> entries[i].task == task
    requires forall d :: d in task.dependencies ==> d in before
    requires Prepared(before + {task.id}, rest)
    ensures Prepared(before, entries + rest)
  {
    var log := entries + rest;
    forall i, d | 0 <= i < |log| && d in log[i].task.dependencies
      ensures d in before || exists x :: x in log[..i] && x.outcome.Returned? && x.task.id == d
    {
      if i >= |entries| {
        assert log[i] == rest[i - |entries|];
        assert log[..i] == entries + rest[..i - |entries|];
        if d !in before {
          if d == task.id {
            assert entries[|entries| - 1] in log[..i];
          } else {
            assert d !in before + {task.id};
            var x :| x in rest[..i - |entries|] && x.outcome.Returned? && x.task.id == d;
            assert x in log[..i];
          }
        }
      }
    }
  }

  /** In a layered order every dependency stands before the task. */
  lemma LayeredPrepared(items: seq<Task>, g: Graph, tie: (Task, Task) -> bool, order: seq<Task>)
    requires Lists(items, g) && Layered(items, g, tie, order)
    ensures forall i, d :: 0 <= i < |order| && d in order[i].dependencies ==> d in Ids(order[..i])
    ensures Distinct(Ids(order))
  {
    hide Distinct, ByLevel;
    forall i, d | 0 <= i < |order| && d in order[i].dependencies ensures d in Ids(order[..i]) {
      assert order[i] in order && order[i] in items;
      assert (Ids(order)[i], d) in EdgesOf(g);
      assert Ids(order)[..i] == Ids(order[..i]);
    }
  }

  // ---------- the loop of one execution ----------

  /** How far the task loop has come, next being its position. */
  ghost predicate Progress(invoke: Handlers, tries: Task -> nat, order: seq<Task>, next: nat, log: seq<Entry>) {
    next <= |order| && Log(invoke, tries, order, 0) == log + Log(invoke, tries, order[next..], |log|)
  }

  lemma Append(a: seq<Entry>, b: seq<Entry>, c: seq<Entry>)
    ensures a + (b + c) == (a + b) + c
  {}

  lemma ProgressStep(invoke: Handlers, tries: Task -> nat, order: seq<Task>, next: nat, log: seq<Entry>)
    requires Progress(invoke, tries, order, next, log) && next < |order|
    ensures var entries := Attempts(invoke, order[next], |log|, tries(order[next]));
            if Gave(entries) then Progress(invoke, tries, order, next + 1, log + entries)
            else Log(invoke, tries, order, 0) == log + entries
  {
    var rest := order[next..];
    assert rest[0] == order[next] && rest[1..] == order[next + 1..];
    var entries := Attempts(invoke, rest[0], |log|, tries(rest[0]));
    var later := Log(invoke, tries, rest[1..], |log| + |entries|);
    assert Log(invoke, tries, rest, |log|) == if Gave(entries) then entries + later else entries;
    Append(log, entries, later);
    hide Log;
    assert |log + entries| == |log| + |entries|;
  }

  lemma End(invoke: Handlers, tries: Task -> nat, order: seq<Task>, log: seq<Entry>)
    requires Progress(invoke, tries, order, |order|, log)
    ensures log == Log(invoke, tries, order, 0)
  {
    assert order[|order|..] == [];
  }

  /** What one task adds: nothing but its last entry when that one succeeded. */
  lemma AddTask(log: seq<Entry>, entries: seq<Entry>, task: Task)
    requires forall i :: 0 <= i < |entries| ==> entries[i].task == task
    requires forall i :: 0 <= i < |entries| - 1 ==> !entries[i].outcome.Returned?
    ensures entries == [] ==> log + entries == log && Gave(entries)
    ensures entries != [] ==>
              var last := entries[|entries| - 1];
              && Gave(log + entries) == Gave(entries) == last.outcome.Returned?
              && (log + entries)[|log + entries| - 1] == last
              && last.task == task
              && Successes(log + entries) == if Gave(entries) then Successes(log) + [last] else Successes(log)
  {
    AttemptsSucceedOnce(entries);
    SuccessesConcat(log, entries);
    hide Successes;
    if entries == [] {
      assert log + entries == log;
    } else {
      Snoc(log, entries);
    }
  }
}
