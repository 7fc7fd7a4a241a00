/** What in-order acknowledgement guarantees a consumer group of event_streaming/platform.py: nothing
    is lost, and when everything is delivered. */
module AtLeastOnce {
  import opened Wrappers
  import opened Graphs
  import opened Sorting
  import opened EventLog
  import opened Replaying

  // ---------- the guarantees of one group ----------

  /** Every event the subscription selects is acknowledged or still at or above the offset. */
  ghost predicate NothingLost(glob: Glob, s: Subscription, logs: Logs, offsets: Offsets, acked: set<Event>) {
    forall e :: Published(logs, e) && Matches(glob, s, e) && e.offset < Offset(offsets, e.partition) ==> e in acked
  }

  /** So the next pull that has room delivers every unacknowledged matching event. */
  lemma UnacknowledgedDelivered(glob: Glob, s: Subscription, logs: Logs, offsets: Offsets, acked: set<Event>,
                                limit: int, e: Event)
    requires Anchored(logs) && NothingLost(glob, s, logs, offsets, acked)
    requires Published(logs, e) && Matches(glob, s, e) && e !in acked
    requires |Candidates(glob, s, logs, offsets)| <= Batch(limit)
    ensures e in Delivered(glob, s, logs, offsets, limit)
  {
    CandidatesExact(glob, s, logs, offsets);
    DeliveredSoonest(glob, s, logs, offsets, limit);
  }

  /** e is acknowledged in order: every other selected event of its partition number up to its
      offset has been acknowledged before. */
  ghost predicate InOrder(glob: Glob, s: Subscription, logs: Logs, acked: set<Event>, e: Event) {
    forall f :: Published(logs, f) && Matches(glob, s, f) && f != e && f.partition == e.partition
                && f.offset <= e.offset ==>
      f in acked
  }

  /** An acknowledgement keeps the guarantee exactly when it is in order. */
  lemma AcknowledgeKeepsIff(glob: Glob, s: Subscription, logs: Logs, offsets: Offsets, acked: set<Event>, e: Event)
    requires NothingLost(glob, s, logs, offsets, acked)
    ensures NothingLost(glob, s, logs, Advance(offsets, e), acked + {e}) <==> InOrder(glob, s, logs, acked, e)
  {
    hide Published, Matches;
    var after := Advance(offsets, e);
    forall f: Event ensures f.offset < Offset(after, f.partition) <==>
                     f.offset < Offset(offsets, f.partition) || (f.partition == e.partition && f.offset <= e.offset) {}
  }

  /** Events of two topics with one partition number share an offset, so acknowledging one loses
      the other: a pattern over several topics breaks at-least-once delivery. */
  lemma SharedPartitionLoses(glob: Glob, s: Subscription, logs: Logs, offsets: Offsets, acked: set<Event>, e: Event,
                             f: Event)
    requires NothingLost(glob, s, logs, offsets, acked)
    requires Published(logs, f) && Matches(glob, s, f) && f !in acked
    requires e.topic != f.topic && e.partition == f.partition && f.offset <= e.offset
    ensures !NothingLost(glob, s, logs, Advance(offsets, e), acked + {e})
    ensures Anchored(logs) ==> f !in Candidates(glob, s, logs, Advance(offsets, e))
  {
    AcknowledgeKeepsIff(glob, s, logs, offsets, acked, e);
    if Anchored(logs) {
      CandidatesExact(glob, s, logs, Advance(offsets, e));
    }
  }

  /** Publishing keeps the guarantee exactly when the new event is not already below the offset,
      which other topics may have pushed past the end of this bucket. */
  lemma PublishKeepsIff(glob: Glob, s: Subscription, logs: Logs, offsets: Offsets, acked: set<Event>,
                        t: nat, p: nat, payload: map<string, string>, at: real, priority: int)
    requires Anchored(logs) && t < |logs| && p < |logs[t].partitions|
    requires NothingLost(glob, s, logs, offsets, acked)
    requires forall a :: a in acked ==> Published(logs, a)
    ensures var e := Event(logs[t].key, p, |logs[t].partitions[p]|, payload, at, priority);
            NothingLost(glob, s, Append(logs, t, p, payload, at, priority), offsets, acked) <==>
            !Matches(glob, s, e) || e.offset >= Offset(offsets, p)
  {
    hide Matches;
    AppendPublishes(logs, t, p, payload, at, priority);
    var e := Event(logs[t].key, p, |logs[t].partitions[p]|, payload, at, priority);
    forall u | 0 <= u < |logs| ensures !InTopic(logs[u], e) {
      assert logs[u].key == logs[t].key ==> u == t;
    }
    hide Published, Anchored;
  }

  // ---------- replays ----------

  /** Whatever is selected and unacknowledged in a tracked partition that is replayed at all has a
      replayed event of that partition at or below it. */
  ghost predicate Covers(glob: Glob, s: Subscription, logs: Logs, offsets: Offsets, acked: set<Event>,
                         replayed: seq<Event>) {
    forall f :: Published(logs, f) && Matches(glob, s, f) && f !in acked && f.partition in offsets
                && (exists e :: e in replayed && e.partition == f.partition) ==>
      exists e :: e in replayed && e.partition == f.partition && e.offset <= f.offset
  }

  /** A replay may also move an offset forward; it loses nothing exactly when it covers what is
      unacknowledged. */
  lemma ReplayKeepsIff(glob: Glob, s: Subscription, logs: Logs, offsets: Offsets, acked: set<Event>,
                       replayed: seq<Event>)
    requires NothingLost(glob, s, logs, offsets, acked)
    ensures NothingLost(glob, s, logs, Repositioned(offsets, replayed), acked) <==>
            Covers(glob, s, logs, offsets, acked, replayed)
  {
    var after := Repositioned(offsets, replayed);
    forall f | Published(logs, f) && Matches(glob, s, f) && f !in acked
      ensures f.offset >= Offset(after, f.partition) <==>
              (f.partition in offsets && (exists e :: e in replayed && e.partition == f.partition) ==>
                 exists e :: e in replayed && e.partition == f.partition && e.offset <= f.offset)
    {
      if f.partition in offsets {
        ReplayPositions(offsets, replayed, f.partition);
      }
    }
    hide Published, Matches, Repositioned;
  }

  /** Going back, a group counts as acknowledged only what still lies below its offsets. */
  lemma ReplayIntact(glob: Glob, s: Subscription, only: TopicKey, st: State, replayed: seq<Event>)
    requires Healthy(glob, s, only, st) && Enabled(glob, s, only, st, Replay(replayed))
    ensures Healthy(glob, s, only, Next(st, Replay(replayed)))
  {
    ReplayKeepsIff(glob, s, st.logs, st.offsets, st.acked, replayed);
    var after := Repositioned(st.offsets, replayed);
    forall t, p | 0 <= t < |st.logs| && st.logs[t].key == only && 0 <= p < |st.logs[t].partitions|
      ensures Offset(after, p) <= |st.logs[t].partitions[p]|
    {
      if p in st.offsets {
        ReplayPositions(st.offsets, replayed, p);
        if exists e :: e in replayed && e.partition == p {
          var e :| e in replayed && e.partition == p && e.offset == Offset(after, p);
          assert Published(st.logs, e) && e.topic == only;
          var u :| 0 <= u < |st.logs| && InTopic(st.logs[u], e);
          assert u == t;
        } else {
          assert Offset(after, p) == Offset(st.offsets, p);
        }
      } else {
        assert Offset(after, p) == 0;
      }
    }
  }

  // ---------- runs of one at-least-once group ----------

  /** What happens between deliveries; pulls of an at-least-once group change nothing. */
  datatype Step =
    | Publish(topic: nat, partition: nat, payload: map<string, string>, at: real, priority: int)
    | Acknowledge(event: Event)
    | Replay(replayed: seq<Event>)

  datatype State = State(logs: Logs, offsets: Offsets, acked: set<Event>)

  ghost predicate Enabled(glob: Glob, s: Subscription, only: TopicKey, st: State, step: Step) {
    match step
    case Publish(t, p, _, _, _) => t < |st.logs| && p < |st.logs[t].partitions|
    case Acknowledge(e) => Published(st.logs, e) && e.topic == only && InOrder(glob, s, st.logs, st.acked, e)
    case Replay(replayed) =>
      && (forall e :: e in replayed ==> Published(st.logs, e) && e.topic == only)
      && Covers(glob, s, st.logs, st.offsets, st.acked, replayed)
  }

  ghost function Next(st: State, step: Step): State
    requires step.Publish? ==> step.topic < |st.logs| && step.partition < |st.logs[step.topic].partitions|
  {
    match step
    case Publish(t, p, payload, at, priority) => st.(logs := Append(st.logs, t, p, payload, at, priority))
    case Acknowledge(e) => st.(offsets := Advance(st.offsets, e), acked := st.acked + {e})
    case Replay(replayed) =>
      var offsets := Repositioned(st.offsets, replayed);
      st.(offsets := offsets, acked := set a | a in st.acked && a.offset < Offset(offsets, a.partition))
  }

  ghost predicate Run(glob: Glob, s: Subscription, only: TopicKey, st: State, steps: seq<Step>)
    decreases |steps|
  {
    steps == [] || (Enabled(glob, s, only, st, steps[0]) && Run(glob, s, only, Next(st, steps[0]), steps[1..]))
  }

  ghost function After(glob: Glob, s: Subscription, only: TopicKey, st: State, steps: seq<Step>): State
    requires Run(glob, s, only, st, steps)
    decreases |steps|
  {
    if steps == [] then st else After(glob, s, only, Next(st, steps[0]), steps[1..])
  }

  /** The subscription selects events of one topic only. */
  ghost predicate SingleTopic(glob: Glob, s: Subscription, only: TopicKey) {
    forall e :: Matches(glob, s, e) ==> e.topic == only
  }

  /** Offsets never pass the end of the one topic's buckets. */
  ghost predicate Tame(only: TopicKey, logs: Logs, offsets: Offsets) {
    forall t, p :: 0 <= t < |logs| && logs[t].key == only && 0 <= p < |logs[t].partitions| ==>
      Offset(offsets, p) <= |logs[t].partitions[p]|
  }

  /** What is acknowledged lies below the offsets. */
  ghost predicate AckedBelow(offsets: Offsets, acked: set<Event>) {
    forall a :: a in acked ==> a.offset < Offset(offsets, a.partition)
  }

  lemma AckedAdvance(offsets: Offsets, acked: set<Event>, e: Event)
    requires AckedBelow(offsets, acked)
    ensures AckedBelow(Advance(offsets, e), acked + {e})
  {}

  /** The events still to come are exactly the unacknowledged ones. */
  ghost predicate Intact(glob: Glob, s: Subscription, st: State) {
    Anchored(st.logs) && NothingLost(glob, s, st.logs, st.offsets, st.acked) && AckedBelow(st.offsets, st.acked)
  }

  ghost predicate Healthy(glob: Glob, s: Subscription, only: TopicKey, st: State) {
    && Intact(glob, s, st) && Tame(only, st.logs, st.offsets)
    && forall a :: a in st.acked ==> Published(st.logs, a)
  }

  lemma StepHealthy(glob: Glob, s: Subscription, only: TopicKey, st: State, step: Step)
    requires SingleTopic(glob, s, only) && Healthy(glob, s, only, st) && Enabled(glob, s, only, st, step)
    ensures Healthy(glob, s, only, Next(st, step))
  {
    match step
    case Publish(t, p, payload, at, priority) =>
      AppendPublishes(st.logs, t, p, payload, at, priority);
      PublishKeepsIff(glob, s, st.logs, st.offsets, st.acked, t, p, payload, at, priority);
      var e := Event(st.logs[t].key, p, |st.logs[t].partitions[p]|, payload, at, priority);
      assert Matches(glob, s, e) ==> e.topic == only;
      TameAppend(only, st.logs, st.offsets, t, p, payload, at, priority);
    case Acknowledge(e) =>
      AcknowledgeKeepsIff(glob, s, st.logs, st.offsets, st.acked, e);
      AckedAdvance(st.offsets, st.acked, e);
      TameAdvance(only, st.logs, st.offsets, e);
    case Replay(replayed) =>
      ReplayIntact(glob, s, only, st, replayed);
  }

  lemma TameAppend(only: TopicKey, logs: Logs, offsets: Offsets, t: nat, p: nat, payload: map<string, string>,
                   at: real, priority: int)
    requires Tame(only, logs, offsets) && t < |logs| && p < |logs[t].partitions|
    ensures Tame(only, Append(logs, t, p, payload, at, priority), offsets)
  {}

  lemma TameAdvance(only: TopicKey, logs: Logs, offsets: Offsets, e: Event)
    requires Tame(only, logs, offsets) && Anchored(logs) && Published(logs, e) && e.topic == only
    ensures Tame(only, logs, Advance(offsets, e))
  {
    var u :| 0 <= u < |logs| && InTopic(logs[u], e);
    forall t, p | 0 <= t < |logs| && logs[t].key == only && 0 <= p < |logs[t].partitions|
      ensures Offset(Advance(offsets, e), p) <= |logs[t].partitions[p]|
    {
      assert t == u;
      var current := Offset(offsets, p);
      assert current <= |logs[t].partitions[p]|;
      if p == e.partition {
        assert e.offset + 1 <= |logs[t].partitions[p]|;
      } else {
        assert Offset(Advance(offsets, e), p) == current;
      }
    }
  }

  /** At-least-once, over every run: a group whose subscription selects one topic and that
      acknowledges in offset order per partition never loses an unacknowledged matching event. */
  lemma {:induction false} AtLeastOnceRun(glob: Glob, s: Subscription, only: TopicKey, st: State, steps: seq<Step>)
    requires SingleTopic(glob, s, only) && Healthy(glob, s, only, st) && Run(glob, s, only, st, steps)
    ensures Healthy(glob, s, only, After(glob, s, only, st, steps))
    decreases |steps|
  {
    hide Healthy, Next, SingleTopic;
    if steps != [] {
      StepHealthy(glob, s, only, st, steps[0]);
      AtLeastOnceRun(glob, s, only, Next(st, steps[0]), steps[1..]);
    }
  }

  /** A fresh group has lost nothing. */
  lemma FreshHealthy(glob: Glob, s: Subscription, only: TopicKey, logs: Logs, offsets: Offsets)
    requires Anchored(logs) && forall p :: Offset(offsets, p) == 0
    ensures Healthy(glob, s, only, State(logs, offsets, {}))
  {}

  // ---------- progress: what a pull offers to acknowledge ----------

  ghost function Waiting(glob: Glob, s: Subscription, st: State): seq<Event> {
    Candidates(glob, s, st.logs, st.offsets)
  }

  ghost function Pulled(glob: Glob, s: Subscription, st: State, limit: int): seq<Event> {
    Delivered(glob, s, st.logs, st.offsets, limit)
  }

  /** e has the least offset of its partition among the events of k. */
  ghost predicate First(k: set<Event>, e: Event) {
    forall f :: f in k && f != e && f.partition == e.partition ==> e.offset < f.offset
  }

  ghost predicate Least(c: seq<Event>, e: Event) {
    e in c && First(Elements(c), e)
  }

  /** The other events of k that a pull may deliver before e. */
  ghost function AheadOf(k: set<Event>, e: Event): set<Event> {
    set g | g in k && g != e && Sooner(g, e)
  }

  /** A waiting event can be acknowledged in order exactly when it is the least of its partition. */
  lemma InOrderIffLeast(glob: Glob, s: Subscription, st: State, e: Event)
    requires Intact(glob, s, st) && e in Waiting(glob, s, st)
    ensures InOrder(glob, s, st.logs, st.acked, e) <==> Least(Waiting(glob, s, st), e)
  {
    CandidatesExact(glob, s, st.logs, st.offsets);
    hide Candidates, Anchored, Matches, Published;
    var c := Waiting(glob, s, st);
    if Least(c, e) {
      forall f | Published(st.logs, f) && Matches(glob, s, f) && f.partition == e.partition && f.offset <= e.offset &&
          f != e
        ensures f in st.acked
      {
        assert f !in c;
      }
    }
  }

  /** Only events of one partition and offset tie. */
  lemma SoonerTie(e: Event, g: Event)
    requires Sooner(e, g) && Sooner(g, e)
    ensures e.partition == g.partition && e.offset == g.offset
  {}

  /** A pulled event that is first among some waiting ones has fewer of them ahead than fit a batch. */
  lemma PulledAhead(glob: Glob, s: Subscription, st: State, limit: int, k: set<Event>, e: Event)
    requires Intact(glob, s, st) && k <= Elements(Waiting(glob, s, st))
    requires First(k, e) && e in Pulled(glob, s, st, limit)
    ensures |AheadOf(k, e)| < Batch(limit)
  {
    BatchFacts(glob, s, st, limit);
    var c, d := Waiting(glob, s, st), Pulled(glob, s, st, limit);
    hide Waiting, Pulled, Sooner, Intact;
    forall g | g in AheadOf(k, e) ensures g in Elements(d) - {e} {
      if g !in d {
        SoonerTie(e, g);
      }
    }
    DistinctIff(d);
    SubsetSize(AheadOf(k, e), Elements(d) - {e});
  }

  /** The least waiting event of a partition is pulled exactly when fewer events are ahead of it
      than fit a batch. */
  lemma PulledIff(glob: Glob, s: Subscription, st: State, limit: int, e: Event)
    requires Intact(glob, s, st) && Least(Waiting(glob, s, st), e)
    ensures e in Pulled(glob, s, st, limit) <==> |AheadOf(Elements(Waiting(glob, s, st)), e)| < Batch(limit)
  {
    BatchFacts(glob, s, st, limit);
    var c, d := Waiting(glob, s, st), Pulled(glob, s, st, limit);
    if e in d {
      PulledAhead(glob, s, st, limit, Elements(c), e);
    } else {
      hide Waiting, Pulled, Sooner, Intact, First;
      assert forall g :: g in d ==> g in AheadOf(Elements(c), e);
      DistinctIff(d);
      SubsetSize(Elements(d), AheadOf(Elements(c), e));
    }
  }

  /** What the later proofs use of a pull: the soonest waiting events, as many as fit. */
  lemma BatchFacts(glob: Glob, s: Subscription, st: State, limit: int)
    requires Intact(glob, s, st)
    ensures var c, d := Waiting(glob, s, st), Pulled(glob, s, st, limit);
            && Distinct(c) && Distinct(d)
            && |d| == (if |c| <= Batch(limit) then |c| else Batch(limit))
            && (forall e :: e in d ==> e in c)
            && (|c| <= Batch(limit) ==> forall e :: e in c ==> e in d)
            && (forall e, f :: e in d && f in c && f !in d ==> Sooner(e, f))
  {
    CandidatesExact(glob, s, st.logs, st.offsets);
    DeliveredSoonest(glob, s, st.logs, st.offsets, limit);
  }

  /** A pull offers something to acknowledge in order exactly when some partition's least waiting
      event has fewer waiting events ahead of it than fit a batch. */
  lemma ProgressIff(glob: Glob, s: Subscription, st: State, limit: int)
    requires Intact(glob, s, st)
    ensures (exists e :: e in Pulled(glob, s, st, limit) && InOrder(glob, s, st.logs, st.acked, e)) <==>
            (exists e :: Least(Waiting(glob, s, st), e) &&
                         |AheadOf(Elements(Waiting(glob, s, st)), e)| < Batch(limit))
  {
    BatchFacts(glob, s, st, limit);
    hide Pulled, Waiting, Intact, Least, InOrder, AheadOf;
    var c, d := Waiting(glob, s, st), Pulled(glob, s, st, limit);
    if e :| e in d && InOrder(glob, s, st.logs, st.acked, e) {
      InOrderIffLeast(glob, s, st, e);
      PulledIff(glob, s, st, limit, e);
    }
    if e :| Least(c, e) && |AheadOf(Elements(c), e)| < Batch(limit) {
      PulledIff(glob, s, st, limit, e);
      InOrderIffLeast(glob, s, st, e);
    }
  }

  /** Waiting after an acknowledgement in order: everything but the acknowledged event. */
  lemma WaitingAfter(glob: Glob, s: Subscription, st: State, e: Event)
    requires Intact(glob, s, st) && e in Waiting(glob, s, st) && InOrder(glob, s, st.logs, st.acked, e)
    ensures Intact(glob, s, Next(st, Acknowledge(e)))
    ensures forall f :: f in Waiting(glob, s, Next(st, Acknowledge(e))) <==> f in Waiting(glob, s, st) && f != e
  {
    InOrderIffLeast(glob, s, st, e);
    AcknowledgeKeepsIff(glob, s, st.logs, st.offsets, st.acked, e);
    AckedAdvance(st.offsets, st.acked, e);
    CandidatesExact(glob, s, st.logs, st.offsets);
    CandidatesExact(glob, s, st.logs, Advance(st.offsets, e));
    hide Candidates, Anchored, Matches, Published, InOrder, NothingLost;
  }

  // ---------- rounds of pulling and acknowledging ----------

  /** A consumer goes through a batch and acknowledges what it can in order. */
  ghost function AcknowledgeAll(glob: Glob, s: Subscription, st: State, batch: seq<Event>): State
    decreases |batch|
  {
    if batch == [] then st
    else
      var next := if InOrder(glob, s, st.logs, st.acked, batch[0]) then Next(st, Acknowledge(batch[0])) else st;
      AcknowledgeAll(glob, s, next, batch[1..])
  }

  ghost function Rounds(glob: Glob, s: Subscription, st: State, limit: int, n: nat): State
    decreases n
  {
    if n == 0 then st
    else Rounds(glob, s, AcknowledgeAll(glob, s, st, Pulled(glob, s, st, limit)), limit, n - 1)
  }

  lemma NextRound(glob: Glob, s: Subscription, st: State, limit: int, n: nat)
    ensures Rounds(glob, s, st, limit, n) ==
            if n == 0 then st
            else Rounds(glob, s, AcknowledgeAll(glob, s, st, Pulled(glob, s, st, limit)), limit, n - 1)
  {}

  /** Everything pulled in these rounds. */
  ghost function Given(glob: Glob, s: Subscription, st: State, limit: int, n: nat): seq<Event>
    decreases n
  {
    if n == 0 then []
    else
      var batch := Pulled(glob, s, st, limit);
      batch + Given(glob, s, AcknowledgeAll(glob, s, st, batch), limit, n - 1)
  }

  /** In each partition earlier offsets are delivered sooner, and no two events share one. */
  ghost predicate Orderly(c: seq<Event>) {
    forall e, f :: e in c && f in c && e != f && e.partition == f.partition && e.offset <= f.offset ==>
      e.offset < f.offset && Sooner(e, f)
  }

  /** Each event of the batch comes after all waiting events up to its offset in its partition. */
  ghost predicate InTurn(c: seq<Event>, batch: seq<Event>) {
    forall i :: 0 <= i < |batch| ==>
      && batch[i] in c
      && forall f :: f in c && f != batch[i] && f.partition == batch[i].partition && f.offset <= batch[i].offset ==>
          f in batch[..i]
  }

  lemma SoonerStrict(e: Event, f: Event)
    requires Sooner(e, f) && e.partition == f.partition && e.offset < f.offset
    ensures !Sooner(f, e)
  {}

  /** A waiting event of the same partition and a lower offset stands before the i-th of the batch. */
  lemma EarlierBefore(c: seq<Event>, batch: seq<Event>, i: nat, f: Event)
    requires Orderly(c) && SortedBy(batch, Sooner) && i < |batch| && batch[i] in c
    requires f in c && f != batch[i] && f.partition == batch[i].partition && f.offset <= batch[i].offset
    requires f in batch || Sooner(batch[i], f)
    ensures f in batch[..i]
  {
    SoonerStrict(f, batch[i]);
    hide Sooner;
    var j :| 0 <= j < |batch| && batch[j] == f;
    assert j < i;
    assert batch[..i][j] == f;
  }

  lemma DeliveredInTurn(glob: Glob, s: Subscription, st: State, limit: int)
    requires Intact(glob, s, st) && Orderly(Waiting(glob, s, st))
    ensures InTurn(Waiting(glob, s, st), Pulled(glob, s, st, limit))
    ensures Distinct(Pulled(glob, s, st, limit))
  {
    CandidatesExact(glob, s, st.logs, st.offsets);
    DeliveredSoonest(glob, s, st.logs, st.offsets, limit);
    hide Delivered, Candidates, Anchored, Matches, Published, Sooner, Orderly, SortedBy;
    var c, d := Waiting(glob, s, st), Pulled(glob, s, st, limit);
    forall i, f | 0 <= i < |d| && f in c && f != d[i] && f.partition == d[i].partition && f.offset <= d[i].offset
      ensures f in d[..i]
    {
      assert d[i] in d;
      EarlierBefore(c, d, i, f);
    }
  }

  /** A batch in turn is acknowledged to its end. */
  lemma {:induction false} BatchAcknowledged(glob: Glob, s: Subscription, st: State, batch: seq<Event>)
    requires Intact(glob, s, st) && InTurn(Waiting(glob, s, st), batch) && Distinct(batch)
    ensures var after := AcknowledgeAll(glob, s, st, batch);
            && Intact(glob, s, after) && after.logs == st.logs && after.acked == st.acked + Elements(batch)
            && forall f :: f in Waiting(glob, s, after) <==> f in Waiting(glob, s, st) && f !in batch
    decreases |batch|
  {
    hide Intact, Waiting, Distinct, InOrder, Least;
    if batch != [] {
      var e, rest := batch[0], batch[1..];
      FirstLeast(Waiting(glob, s, st), batch);
      InOrderIffLeast(glob, s, st, e);
      WaitingAfter(glob, s, st, e);
      var next := Next(st, Acknowledge(e));
      DistinctCons(e, rest);
      assert batch == [e] + rest;
      InTurnRest(Waiting(glob, s, st), Waiting(glob, s, next), batch);
      BatchAcknowledged(glob, s, next, rest);
      assert Elements(batch) == {e} + Elements(rest);
    }
  }

  lemma FirstLeast(c: seq<Event>, batch: seq<Event>)
    requires InTurn(c, batch) && batch != []
    ensures batch[0] in c && Least(c, batch[0])
  {
    assert batch[..0] == [];
  }

  lemma InTurnRest(c: seq<Event>, left: seq<Event>, batch: seq<Event>)
    requires InTurn(c, batch) && Distinct(batch) && batch != []
    requires forall f :: f in left <==> f in c && f != batch[0]
    ensures InTurn(left, batch[1..])
  {
    var rest := batch[1..];
    forall i | 0 <= i < |rest|
      ensures rest[i] in left
      ensures forall f :: f in left && f != rest[i] && f.partition == rest[i].partition
                          && f.offset <= rest[i].offset ==>
                f in rest[..i]
    {
      assert rest[i] == batch[i + 1] && batch[..i + 1] == [batch[0]] + rest[..i];
    }
  }

  /** What one pass over a batch leaves: only events of the batch are acknowledged. */
  lemma {:induction false} PassKeeps(glob: Glob, s: Subscription, st: State, batch: seq<Event>)
    requires Intact(glob, s, st) && Distinct(batch) && forall e :: e in batch ==> e in Waiting(glob, s, st)
    ensures var after := AcknowledgeAll(glob, s, st, batch);
            && Intact(glob, s, after) && after.logs == st.logs
            && st.acked <= after.acked <= st.acked + Elements(batch)
            && (forall f :: f in Waiting(glob, s, after) ==> f in Waiting(glob, s, st))
    decreases |batch|
  {
    hide Intact, Waiting, Distinct, InOrder;
    if batch != [] {
      PassStep(glob, s, st, batch);
      var next := AfterFirst(glob, s, st, batch[0]);
      PassKeeps(glob, s, next, batch[1..]);
      assert batch == [batch[0]] + batch[1..];
    }
  }

  ghost function AfterFirst(glob: Glob, s: Subscription, st: State, e: Event): State {
    if InOrder(glob, s, st.logs, st.acked, e) then Next(st, Acknowledge(e)) else st
  }

  /** The first event of a batch: acknowledged, and then gone, exactly when it is the least of its
      partition; the other events of the batch still wait. */
  lemma PassStep(glob: Glob, s: Subscription, st: State, batch: seq<Event>)
    requires Intact(glob, s, st) && Distinct(batch) && batch != []
    requires forall e :: e in batch ==> e in Waiting(glob, s, st)
    ensures var e, next := batch[0], AfterFirst(glob, s, st, batch[0]);
            && AcknowledgeAll(glob, s, st, batch) == AcknowledgeAll(glob, s, next, batch[1..])
            && Intact(glob, s, next) && next.logs == st.logs && st.acked <= next.acked <= st.acked + {e}
            && (forall f :: f in Waiting(glob, s, next) <==>
                  f in Waiting(glob, s, st) && (f != e || !Least(Waiting(glob, s, st), e)))
            && Distinct(batch[1..]) && (forall f :: f in batch[1..] ==> f != e && f in Waiting(glob, s, next))
  {
    var e, rest := batch[0], batch[1..];
    assert batch == [e] + rest;
    DistinctCons(e, rest);
    hide Intact, Waiting, Distinct, Least, InOrder;
    InOrderIffLeast(glob, s, st, e);
    if InOrder(glob, s, st.logs, st.acked, e) {
      WaitingAfter(glob, s, st, e);
    }
  }

  /** A set of waiting events survives a pass when no event of the batch is first in it. */
  lemma {:induction false} PassSpares(glob: Glob, s: Subscription, st: State, batch: seq<Event>, k: set<Event>)
    requires Intact(glob, s, st) && Distinct(batch) && forall e :: e in batch ==> e in Waiting(glob, s, st)
    requires k <= Elements(Waiting(glob, s, st)) && forall e :: e in batch && e in k ==> !First(k, e)
    ensures k <= Elements(Waiting(glob, s, AcknowledgeAll(glob, s, st, batch)))
    decreases |batch|
  {
    if batch != [] {
      hide Intact, Waiting, Distinct, AcknowledgeAll, AfterFirst;
      PassStep(glob, s, st, batch);
      assert batch == [batch[0]] + batch[1..];
      assert Least(Waiting(glob, s, st), batch[0]) ==> First(k, batch[0]);
      hide Least, First;
      PassSpares(glob, s, AfterFirst(glob, s, st, batch[0]), batch[1..], k);
    }
  }

  /** A pass serves every event of its batch that is the least of its partition. */
  lemma {:induction false} PassServes(glob: Glob, s: Subscription, st: State, batch: seq<Event>, e: Event)
    requires Intact(glob, s, st) && Distinct(batch) && forall e :: e in batch ==> e in Waiting(glob, s, st)
    requires e in batch && Least(Waiting(glob, s, st), e)
    ensures e !in Waiting(glob, s, AcknowledgeAll(glob, s, st, batch))
    decreases |batch|
  {
    hide Intact, Waiting, Distinct, AcknowledgeAll, AfterFirst;
    PassStep(glob, s, st, batch);
    var next := AfterFirst(glob, s, st, batch[0]);
    assert batch == [batch[0]] + batch[1..];
    if batch[0] == e {
      PassKeeps(glob, s, next, batch[1..]);
    } else {
      assert Least(Waiting(glob, s, next), e);
      PassServes(glob, s, next, batch[1..], e);
    }
  }

  // ---------- which backlogs are served ----------

  /** A jam: waiting events of which each one that is first in its partition has a whole batch of
      the others ahead of it. */
  ghost predicate Jam(k: set<Event>, size: nat) {
    k != {} && forall e :: e in k && First(k, e) ==> |AheadOf(k, e)| >= size
  }

  ghost predicate JamFree(c: seq<Event>, size: nat) {
    forall k: set<Event> :: k <= Elements(c) ==> !Jam(k, size)
  }

  ghost function Round(glob: Glob, s: Subscription, st: State, limit: int): State {
    AcknowledgeAll(glob, s, st, Pulled(glob, s, st, limit))
  }

  lemma RoundKeeps(glob: Glob, s: Subscription, st: State, limit: int)
    requires Intact(glob, s, st)
    ensures var next := Round(glob, s, st, limit);
            && Intact(glob, s, next) && next.logs == st.logs
            && st.acked <= next.acked <= st.acked + Elements(Pulled(glob, s, st, limit))
            && (forall f :: f in Waiting(glob, s, next) ==> f in Waiting(glob, s, st))
  {
    BatchFacts(glob, s, st, limit);
    hide Intact, Waiting, Pulled;
    PassKeeps(glob, s, st, Pulled(glob, s, st, limit));
  }

  lemma JamStays(glob: Glob, s: Subscription, st: State, limit: int, k: set<Event>)
    requires Intact(glob, s, st) && k <= Elements(Waiting(glob, s, st)) && Jam(k, Batch(limit))
    ensures k <= Elements(Waiting(glob, s, Round(glob, s, st, limit)))
  {
    BatchFacts(glob, s, st, limit);
    var batch := Pulled(glob, s, st, limit);
    hide Intact, Waiting, Pulled;
    forall e | e in batch && e in k ensures !First(k, e) {
      if First(k, e) {
        PulledAhead(glob, s, st, limit, k, e);
      }
    }
    PassSpares(glob, s, st, batch, k);
  }

  /** Without a jam a round serves something. */
  lemma RoundShrinks(glob: Glob, s: Subscription, st: State, limit: int)
    requires Intact(glob, s, st) && JamFree(Waiting(glob, s, st), Batch(limit)) && Waiting(glob, s, st) != []
    ensures |Waiting(glob, s, Round(glob, s, st, limit))| < |Waiting(glob, s, st)|
  {
    BatchFacts(glob, s, st, limit);
    RoundKeeps(glob, s, st, limit);
    BatchFacts(glob, s, Round(glob, s, st, limit), limit);
    var c, batch, next := Waiting(glob, s, st), Pulled(glob, s, st, limit), Round(glob, s, st, limit);
    hide Intact, Waiting, Pulled, AheadOf;
    var k := Elements(c);
    assert c[0] in k && !Jam(k, Batch(limit));
    var e :| e in k && First(k, e) && |AheadOf(k, e)| < Batch(limit);
    PulledIff(glob, s, st, limit, e);
    PassServes(glob, s, st, batch, e);
    DistinctIff(c);
    DistinctIff(Waiting(glob, s, next));
    SubsetSize(Elements(Waiting(glob, s, next)), k - {e});
  }

  lemma {:induction false} RoundsKeep(glob: Glob, s: Subscription, st: State, limit: int, n: nat)
    requires Intact(glob, s, st)
    ensures var last := Rounds(glob, s, st, limit, n);
            && Intact(glob, s, last) && last.logs == st.logs
            && st.acked <= last.acked <= st.acked + Elements(Given(glob, s, st, limit, n))
    decreases n
  {
    hide Intact, Waiting, Pulled, AcknowledgeAll;
    if n > 0 {
      RoundKeeps(glob, s, st, limit);
      RoundsKeep(glob, s, Round(glob, s, st, limit), limit, n - 1);
    }
  }

  lemma {:induction false} JamForever(glob: Glob, s: Subscription, st: State, limit: int, n: nat, k: set<Event>)
    requires Intact(glob, s, st) && k <= Elements(Waiting(glob, s, st)) && Jam(k, Batch(limit))
    ensures k <= Elements(Waiting(glob, s, Rounds(glob, s, st, limit, n)))
    decreases n
  {
    hide Intact, Waiting, Pulled, AcknowledgeAll, Rounds, Jam;
    NextRound(glob, s, st, limit, n);
    if n > 0 {
      RoundKeeps(glob, s, st, limit);
      JamStays(glob, s, st, limit, k);
      JamForever(glob, s, Round(glob, s, st, limit), limit, n - 1, k);
    }
  }

  lemma {:induction false} JamFreeDrains(glob: Glob, s: Subscription, st: State, limit: int, n: nat)
    requires Intact(glob, s, st) && JamFree(Waiting(glob, s, st), Batch(limit)) && n >= |Waiting(glob, s, st)|
    ensures Waiting(glob, s, Rounds(glob, s, st, limit, n)) == []
    decreases n
  {
    hide Intact, Waiting, Pulled, AcknowledgeAll, Rounds, Jam;
    NextRound(glob, s, st, limit, n);
    if n > 0 {
      RoundKeeps(glob, s, st, limit);
      if Waiting(glob, s, st) == [] {
        assert Waiting(glob, s, Round(glob, s, st, limit)) == [] by {
          NoMembers(Waiting(glob, s, Round(glob, s, st, limit)));
        }
      } else {
        RoundShrinks(glob, s, st, limit);
      }
      JamFreeDrains(glob, s, Round(glob, s, st, limit), limit, n - 1);
    }
  }

  /** Rounds of pulling and acknowledging in order, with any limit, serve the whole backlog exactly
      when no waiting events form a jam; what they acknowledge they have delivered. */
  lemma ServedIff(glob: Glob, s: Subscription, st: State, limit: int, n: nat)
    requires Intact(glob, s, st) && n >= |Waiting(glob, s, st)|
    ensures (forall e :: Published(st.logs, e) && Matches(glob, s, e) ==> e in Rounds(glob, s, st, limit, n).acked) <==>
            JamFree(Waiting(glob, s, st), Batch(limit))
    ensures forall e :: e in Rounds(glob, s, st, limit, n).acked ==> e in st.acked || e in Given(glob, s, st, limit, n)
  {
    var last := Rounds(glob, s, st, limit, n);
    RoundsKeep(glob, s, st, limit, n);
    NothingWaiting(glob, s, last);
    hide Intact, Waiting, Published, Matches, Rounds, Given, Jam;
    if JamFree(Waiting(glob, s, st), Batch(limit)) {
      JamFreeDrains(glob, s, st, limit, n);
    } else {
      var k: set<Event> :| k <= Elements(Waiting(glob, s, st)) && Jam(k, Batch(limit));
      JamForever(glob, s, st, limit, n, k);
      JamMembers(k, Batch(limit));
    }
  }

  lemma JamMembers(k: set<Event>, size: nat)
    requires Jam(k, size)
    ensures exists e :: e in k
  {}

  /** The soonest event of a non-empty set. */
  lemma {:induction false} Soonest(k: set<Event>) returns (e: Event)
    requires k != {}
    ensures e in k && forall f :: f in k ==> Sooner(e, f)
    decreases k
  {
    var x :| x in k;
    e := x;
    if k != {x} {
      var f := Soonest(k - {x});
      if !Sooner(x, f) { e := f; }
      forall g | g in k ensures Sooner(e, g) {
        if g != x { SoonerThrough(x, f, g); }
      }
    }
  }

  lemma SoonerThrough(e: Event, f: Event, g: Event)
    ensures Sooner(e, f) && Sooner(f, g) ==> Sooner(e, g)
  {}

  /** Where earlier offsets are delivered sooner nothing can jam, whatever the limit. */
  lemma OrderlyJamFree(c: seq<Event>, size: nat)
    requires Orderly(c) && size >= 1
    ensures JamFree(c, size)
  {
    forall k: set<Event> | k <= Elements(c) && k != {} ensures !Jam(k, size) {
      var e := Soonest(k);
      forall f | f in k && f != e && f.partition == e.partition ensures e.offset < f.offset {
        if f.offset <= e.offset { SoonerStrict(f, e); }
      }
      forall g | g in AheadOf(k, e) ensures false {
        SoonerTie(e, g);
      }
      assert AheadOf(k, e) == {};
    }
  }

  /** And one event at a time nothing else is free of jams. */
  lemma DisorderJams(c: seq<Event>)
    requires !Orderly(c)
    ensures !JamFree(c, 1)
  {
    var e, f :| e in c && f in c && e != f && e.partition == f.partition && e.offset <= f.offset
      && !(e.offset < f.offset && Sooner(e, f));
    var k := {e, f};
    assert k <= Elements(c);
    SoonerOrder();
    assert !First(k, f) by { assert e in k; }
    if First(k, e) {
      assert f in k && f in AheadOf(k, e);
      SubsetSize({f}, AheadOf(k, e));
    }
    assert Jam(k, 1);
  }

  /** No two events share a partition number and an offset, as in a single topic. */
  ghost predicate ApartPlaces(c: seq<Event>) {
    forall e, f :: e in c && f in c && e != f && e.partition == f.partition ==> e.offset != f.offset
  }

  lemma {:induction false} Lowest(k: set<Event>) returns (e: Event)
    requires k != {}
    ensures e in k && forall f :: f in k ==> e.offset <= f.offset
    decreases k
  {
    var x :| x in k;
    e := x;
    if k != {x} {
      var f := Lowest(k - {x});
      if f.offset < x.offset { e := f; }
    }
  }

  /** A backlog that fits one batch cannot jam unless events share a place. */
  lemma FittingJamFree(c: seq<Event>, size: nat)
    requires ApartPlaces(c) && |c| <= size
    ensures JamFree(c, size)
  {
    DistinctIff(c);
    forall k: set<Event> | k <= Elements(c) && k != {} ensures !Jam(k, size) {
      var e := Lowest(k);
      SubsetSize(k, Elements(c));
      assert AheadOf(k, e) <= k - {e};
      SubsetSize(AheadOf(k, e), k - {e});
    }
  }

  /** What a pull delivers of an orderly backlog is acknowledged to the end of the batch. */
  lemma WholeBatchAcknowledged(glob: Glob, s: Subscription, st: State, limit: int)
    requires Intact(glob, s, st) && Orderly(Waiting(glob, s, st))
    ensures Round(glob, s, st, limit).acked == st.acked + Elements(Pulled(glob, s, st, limit))
  {
    DeliveredInTurn(glob, s, st, limit);
    BatchAcknowledged(glob, s, st, Pulled(glob, s, st, limit));
  }

  /** So an orderly backlog is served with every limit. */
  lemma RoundsDrain(glob: Glob, s: Subscription, st: State, limit: int, n: nat)
    requires Intact(glob, s, st) && Orderly(Waiting(glob, s, st)) && limit >= 1 && n >= |Waiting(glob, s, st)|
    ensures var last := Rounds(glob, s, st, limit, n);
            Intact(glob, s, last) && last.logs == st.logs && Waiting(glob, s, last) == []
    ensures forall e :: e in Waiting(glob, s, st) ==> e in Given(glob, s, st, limit, n)
  {
    OrderlyJamFree(Waiting(glob, s, st), Batch(limit));
    hide Intact, Waiting, Rounds, Given, Orderly, JamFree, Published, Matches;
    RoundsKeep(glob, s, st, limit, n);
    JamFreeDrains(glob, s, st, limit, n);
    NothingWaiting(glob, s, st);
    NothingWaiting(glob, s, Rounds(glob, s, st, limit, n));
  }

  lemma NothingWaiting(glob: Glob, s: Subscription, st: State)
    requires Intact(glob, s, st)
    ensures Waiting(glob, s, st) == [] <==> forall e :: Published(st.logs, e) && Matches(glob, s, e) ==> e in st.acked
    ensures forall e :: e in Waiting(glob, s, st) ==> Published(st.logs, e) && Matches(glob, s, e) && e !in st.acked
    ensures forall e :: Published(st.logs, e) && Matches(glob, s, e) && e !in st.acked ==> e in Waiting(glob, s, st)
  {
    CandidatesExact(glob, s, st.logs, st.offsets);
    hide Candidates, Anchored, Published, Matches;
    var c := Waiting(glob, s, st);
    assert c != [] ==> c[0] in c;
  }

  /** One event at a time a consumer gets through its backlog exactly when in each partition earlier
      offsets are delivered sooner. */
  lemma OneByOneIff(glob: Glob, s: Subscription, st: State, n: nat)
    requires Intact(glob, s, st) && n >= |Waiting(glob, s, st)|
    ensures (forall e :: Published(st.logs, e) && Matches(glob, s, e) ==> e in Rounds(glob, s, st, 1, n).acked) <==>
            Orderly(Waiting(glob, s, st))
  {
    hide Intact, Waiting, Published, Matches, Rounds, Orderly, JamFree;
    ServedIff(glob, s, st, 1, n);
    if Orderly(Waiting(glob, s, st)) {
      OrderlyJamFree(Waiting(glob, s, st), 1);
    } else {
      DisorderJams(Waiting(glob, s, st));
    }
  }

  lemma OnePulled(glob: Glob, s: Subscription, st: State)
    requires Waiting(glob, s, st) != []
    ensures |Pulled(glob, s, st, 1)| == 1
  {}

  lemma NothingAcknowledged(glob: Glob, s: Subscription, st: State, g: Event)
    requires !InOrder(glob, s, st.logs, st.acked, g)
    ensures AcknowledgeAll(glob, s, st, [g]) == st
  {
    assert AcknowledgeAll(glob, s, st, []) == st;
    assert [g][1..] == [];
  }

  /** A batch that offers nothing to acknowledge comes back for ever. */
  lemma {:induction false} StuckRounds(glob: Glob, s: Subscription, st: State, n: nat, g: Event)
    requires Pulled(glob, s, st, 1) == [g] && !InOrder(glob, s, st.logs, st.acked, g)
    ensures Rounds(glob, s, st, 1, n) == st
    ensures forall e :: e in Given(glob, s, st, 1, n) ==> e == g
    decreases n
  {
    hide Pulled, InOrder, AcknowledgeAll;
    if n > 0 {
      NothingAcknowledged(glob, s, st, g);
      StuckRounds(glob, s, st, n - 1, g);
    }
  }

  function Routine(key: TopicKey): Event {
    Event(key, 0, 0, map[], 0.0, 0)
  }

  function Urgent(key: TopicKey): Event {
    Event(key, 0, 1, map[], 1.0, 5)
  }

  function RoutineThenUrgent(key: TopicKey): State {
    State([TopicLog(key, [[Routine(key), Urgent(key)]])], map[], {})
  }

  lemma RoutineAndUrgent(glob: Glob, s: Subscription, key: TopicKey)
    requires key.scope == s.group.scope && glob(key.name, s.pattern) && s.filters == map[]
    ensures var st := RoutineThenUrgent(key);
            && Intact(glob, s, st)
            && Published(st.logs, Routine(key)) && Matches(glob, s, Routine(key))
            && Published(st.logs, Urgent(key)) && Matches(glob, s, Urgent(key))
            && (forall e :: Published(st.logs, e) ==> e == Routine(key) || e == Urgent(key))
            && !InOrder(glob, s, st.logs, st.acked, Urgent(key))
  {
    var st := RoutineThenUrgent(key);
    assert InTopic(st.logs[0], Routine(key)) && InTopic(st.logs[0], Urgent(key));
  }

  /** Of the two the urgent one is pulled. */
  lemma UrgentFirst(glob: Glob, s: Subscription, key: TopicKey)
    requires key.scope == s.group.scope && glob(key.name, s.pattern) && s.filters == map[]
    ensures Pulled(glob, s, RoutineThenUrgent(key), 1) == [Urgent(key)]
  {
    var st := RoutineThenUrgent(key);
    RoutineAndUrgent(glob, s, key);
    CandidatesExact(glob, s, st.logs, st.offsets);
    DeliveredSoonest(glob, s, st.logs, st.offsets, 1);
    assert Urgent(key) in Candidates(glob, s, st.logs, st.offsets) &&
        Routine(key) in Candidates(glob, s, st.logs, st.offsets);
    OnePulled(glob, s, st);
    hide Candidates, Delivered, Published, Matches, InOrder, Intact, RoutineThenUrgent;
    var batch := Pulled(glob, s, st, 1);
    assert batch == [batch[0]] && batch[0] in batch;
    assert !Sooner(Routine(key), Urgent(key));
  }

  /** Replaying only the urgent event moves the offset past the routine one, which is lost. */
  lemma ReplayLoses(glob: Glob, s: Subscription, key: TopicKey)
    requires key.scope == s.group.scope && glob(key.name, s.pattern) && s.filters == map[]
    ensures var st := RoutineThenUrgent(key);
            var replayed := Replayed(st.logs[0].partitions, Range(Some(1), None, None), e => true);
            && replayed == [Urgent(key)]
            && NothingLost(glob, s, st.logs, map[0 := 0], {})
            && !NothingLost(glob, s, st.logs, Repositioned(map[0 := 0], replayed), {})
  {
    var st := RoutineThenUrgent(key);
    RoutineAndUrgent(glob, s, key);
    var partitions := st.logs[0].partitions;
    assert partitions[..0] == [] && Replayed([], Range(Some(1), None, None), e => true) == [];
    assert [Routine(key), Urgent(key)][1..] == [Urgent(key)] && [Urgent(key)][1..] == [];
    ReplayPositions(map[0 := 0], [Urgent(key)], 0);
  }

  /** So in-order acknowledgement alone serves nobody: with one routine event and, behind it in the
      same partition, an urgent one, every pull of one event gives the urgent one again. Nothing is
      lost, and the routine event is never delivered. */
  lemma UrgentStarves(glob: Glob, s: Subscription, key: TopicKey, n: nat)
    requires key.scope == s.group.scope && glob(key.name, s.pattern) && s.filters == map[]
    ensures var st := RoutineThenUrgent(key);
            && Intact(glob, s, st) && Published(st.logs, Routine(key)) && Matches(glob, s, Routine(key))
            && Pulled(glob, s, st, 1) == [Urgent(key)] && Rounds(glob, s, st, 1, n) == st
            && Routine(key) !in Given(glob, s, st, 1, n)
  {
    RoutineAndUrgent(glob, s, key);
    UrgentFirst(glob, s, key);
    hide Intact, Published, Matches, Pulled, InOrder, Rounds, Given, RoutineThenUrgent;
    StuckRounds(glob, s, RoutineThenUrgent(key), n, Urgent(key));
  }

  /** Waiting events of a single topic lie apart. */
  lemma SingleTopicApart(glob: Glob, s: Subscription, only: TopicKey, st: State)
    requires SingleTopic(glob, s, only) && Anchored(st.logs)
    ensures ApartPlaces(Waiting(glob, s, st))
  {
    CandidatesExact(glob, s, st.logs, st.offsets);
    forall e, f | e in Waiting(glob, s, st) && f in Waiting(glob, s, st) && e != f && e.partition == f.partition
      ensures e.offset != f.offset
    {
      if e.offset == f.offset {
        SamePlace(st.logs, e, f);
        assert false;
      }
    }
  }

  /** Where the subscription selects one topic, a backlog is orderly exactly when along each partition
      the priorities never rise and, where they stay the same, the times never fall. */
  lemma OrderlyIff(glob: Glob, s: Subscription, only: TopicKey, st: State)
    requires SingleTopic(glob, s, only) && Anchored(st.logs)
    ensures Orderly(Waiting(glob, s, st)) <==>
            forall e, f :: e in Waiting(glob, s, st) && f in Waiting(glob, s, st)
                           && e.partition == f.partition && e.offset < f.offset ==>
              e.priority > f.priority || (e.priority == f.priority && e.publishedAt <= f.publishedAt)
  {
    SingleTopicApart(glob, s, only, st);
    hide Waiting, Anchored, SingleTopic;
    forall e: Event, f: Event | e.partition == f.partition && e.offset < f.offset
      ensures Sooner(e, f) <==>
              e.priority > f.priority || (e.priority == f.priority && e.publishedAt <= f.publishedAt)
    {}
    hide Sooner;
  }

  /** So it is where the topic's buckets hold events of never rising priority and never falling time. */
  lemma OrderlyBuckets(glob: Glob, s: Subscription, only: TopicKey, st: State)
    requires SingleTopic(glob, s, only) && Anchored(st.logs)
    requires forall t, p, i, j ::
               0 <= t < |st.logs| && st.logs[t].key == only && 0 <= p < |st.logs[t].partitions|
               && 0 <= i < j < |st.logs[t].partitions[p]| ==>
                 && st.logs[t].partitions[p][i].priority >= st.logs[t].partitions[p][j].priority
                 && st.logs[t].partitions[p][i].publishedAt <= st.logs[t].partitions[p][j].publishedAt
    ensures Orderly(Waiting(glob, s, st))
  {
    OrderlyIff(glob, s, only, st);
    CandidatesExact(glob, s, st.logs, st.offsets);
    forall e, f | e in Waiting(glob, s, st) && f in Waiting(glob, s, st)
                  && e.partition == f.partition && e.offset < f.offset
      ensures e.priority >= f.priority && e.publishedAt <= f.publishedAt
    {
      var t :| 0 <= t < |st.logs| && InTopic(st.logs[t], e);
      var u :| 0 <= u < |st.logs| && InTopic(st.logs[u], f);
      assert st.logs[t].key == only == st.logs[u].key;
      assert st.logs[t].partitions[e.partition][e.offset] == e && st.logs[t].partitions[e.partition][f.offset] == f;
    }
  }

  lemma SamePlace(logs: Logs, e: Event, f: Event)
    requires Anchored(logs) && Published(logs, e) && Published(logs, f)
    requires e.topic == f.topic && e.partition == f.partition && e.offset == f.offset
    ensures e == f
  {
    var t :| 0 <= t < |logs| && InTopic(logs[t], e);
    var u :| 0 <= u < |logs| && InTopic(logs[u], f);
    assert t == u;
  }

  /** At-least-once from registration to delivery: a group that starts fresh, through any run of
      publications and acknowledgements in order, and then pulls and acknowledges a backlog without
      jams, has been given every matching event it had not acknowledged, and acknowledges all. */
  lemma FreshGroupServed(glob: Glob, s: Subscription, only: TopicKey, logs: Logs, partitions: nat, steps: seq<Step>,
                         limit: int, n: nat)
    requires SingleTopic(glob, s, only) && Anchored(logs)
    requires Run(glob, s, only, State(logs, ZeroOffsets(partitions), {}), steps)
    requires var st := After(glob, s, only, State(logs, ZeroOffsets(partitions), {}), steps);
             JamFree(Waiting(glob, s, st), Batch(limit)) && n >= |Waiting(glob, s, st)|
    ensures var st := After(glob, s, only, State(logs, ZeroOffsets(partitions), {}), steps);
            forall e :: Published(st.logs, e) && Matches(glob, s, e) ==>
              && (e in st.acked || e in Given(glob, s, st, limit, n))
              && e in Rounds(glob, s, st, limit, n).acked
  {
    FreshHealthy(glob, s, only, logs, ZeroOffsets(partitions));
    AtLeastOnceRun(glob, s, only, State(logs, ZeroOffsets(partitions), {}), steps);
    var st := After(glob, s, only, State(logs, ZeroOffsets(partitions), {}), steps);
    assert Intact(glob, s, st);
    hide Intact, Waiting, Published, Matches, Rounds, Given, After, Run, JamFree;
    ServedIff(glob, s, st, limit, n);
  }
}
