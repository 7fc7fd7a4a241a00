/** Topics, partitions and offsets of event_streaming/platform.py: the append-only log and what one
    pull takes from it. */
module EventLog {
  import opened Graphs
  import opened Sorting

  datatype Scope = Scope(tenant: string, workspace: string)

  datatype TopicKey = TopicKey(scope: Scope, name: string)

  datatype Event = Event(topic: TopicKey, partition: nat, offset: nat, payload: map<string, string>,
                         publishedAt: real, priority: int)

  /** One topic's partitions, each an append-only bucket. */
  datatype TopicLog = TopicLog(key: TopicKey, partitions: seq<seq<Event>>)

  /** The events dictionary in dictionary order. */
  type Logs = seq<TopicLog>

  /** Offsets are per partition number, whatever the topic. */
  type Offsets = map<nat, nat>

  datatype GroupKey = GroupKey(scope: Scope, name: string)

  datatype Subscription = Subscription(pattern: string, group: GroupKey, filters: map<string, string>)

  /** fnmatch.fnmatch(name, pattern) */
  type Glob = (string, string) -> bool

  // ---------- logs ----------

  /** The anchor: an event's offset is its index in its bucket. */
  ghost predicate Anchored(logs: Logs) {
    && (forall t, u :: 0 <= t < u < |logs| ==> logs[t].key != logs[u].key)
    && (forall t, p, i :: 0 <= t < |logs| && 0 <= p < |logs[t].partitions| && 0 <= i < |logs[t].partitions[p]| ==>
          var e := logs[t].partitions[p][i];
          e.topic == logs[t].key && e.partition == p && e.offset == i)
  }

  ghost predicate Published(logs: Logs, e: Event) {
    exists t :: 0 <= t < |logs| && InTopic(logs[t], e)
  }

  ghost predicate InTopic(log: TopicLog, e: Event) {
    e.topic == log.key && e.partition < |log.partitions| && e.offset < |log.partitions[e.partition]|
    && log.partitions[e.partition][e.offset] == e
  }

  predicate Matches(glob: Glob, s: Subscription, e: Event) {
    && e.topic.scope == s.group.scope && glob(e.topic.name, s.pattern)
    && forall k :: k in s.filters ==> k in e.payload && e.payload[k] == s.filters[k]
  }

  function Offset(offsets: Offsets, partition: nat): nat {
    if partition in offsets then offsets[partition] else 0
  }

  /** offsets[e.partition] = max(offsets.get(e.partition, 0), e.offset + 1) */
  function Advance(offsets: Offsets, e: Event): Offsets {
    var current := Offset(offsets, e.partition);
    offsets[e.partition := if current > e.offset + 1 then current else e.offset + 1]
  }

  function AdvanceAll(offsets: Offsets, events: seq<Event>): Offsets {
    if events == [] then offsets
    else
      var n := |events| - 1;
      Advance(AdvanceAll(offsets, events[..n]), events[n])
  }

  lemma AdvanceOne(offsets: Offsets, e: Event)
    ensures AdvanceAll(offsets, [e]) == Advance(offsets, e)
  {
    assert [e][..0] == [] && AdvanceAll(offsets, []) == offsets;
  }

  lemma {:induction false} AdvanceAllOffset(offsets: Offsets, events: seq<Event>)
    ensures forall p :: Offset(AdvanceAll(offsets, events), p) >= Offset(offsets, p)
    ensures forall e :: e in events ==> e.offset < Offset(AdvanceAll(offsets, events), e.partition)
    decreases |events|
  {
    if events != [] {
      var n := |events| - 1;
      AdvanceAllOffset(offsets, events[..n]);
      assert events == events[..n] + [events[n]];
    }
  }

  // ---------- pull ----------

  /** The events of one bucket from the offset on that pass the filters; Python's slice is empty
      when the offset lies beyond the end. */
  function FromBucket(glob: Glob, s: Subscription, bucket: seq<Event>, offset: nat): seq<Event> {
    if offset >= |bucket| then [] else Filter(bucket[offset..], (e: Event) => Matches(glob, s, e))
  }

  function FromTopic(glob: Glob, s: Subscription, partitions: seq<seq<Event>>, offsets: Offsets): seq<Event> {
    if partitions == [] then []
    else
      var p := |partitions| - 1;
      FromTopic(glob, s, partitions[..p], offsets) + FromBucket(glob, s, partitions[p], Offset(offsets, p))
  }

  /** Only topics of the scope whose name matches the pattern are looked at. */
  function Candidates(glob: Glob, s: Subscription, logs: Logs, offsets: Offsets): seq<Event> {
    if logs == [] then []
    else
      var t := |logs| - 1;
      var rest := Candidates(glob, s, logs[..t], offsets);
      if logs[t].key.scope == s.group.scope && glob(logs[t].key.name, s.pattern)
      then rest + FromTopic(glob, s, logs[t].partitions, offsets) else rest
  }

  /** The sort key (-priority, published_at, partition, offset). */
  predicate Sooner(a: Event, b: Event) {
    if a.priority != b.priority then a.priority > b.priority
    else if a.publishedAt != b.publishedAt then a.publishedAt < b.publishedAt
    else if a.partition != b.partition then a.partition < b.partition
    else a.offset <= b.offset
  }

  function Batch(limit: int): nat {
    if limit < 0 then 0 else if limit > 1000 then 1000 else limit
  }

  /** The events one pull delivers. */
  function Delivered(glob: Glob, s: Subscription, logs: Logs, offsets: Offsets, limit: int): seq<Event> {
    var sorted := SortBy(Candidates(glob, s, logs, offsets), Sooner);
    if |sorted| <= Batch(limit) then sorted else sorted[..Batch(limit)]
  }

  /** A bucket of an anchored topic: the p-th. */
  ghost predicate AnchoredBucket(key: TopicKey, p: nat, bucket: seq<Event>) {
    forall i :: 0 <= i < |bucket| ==> bucket[i].topic == key && bucket[i].partition == p && bucket[i].offset == i
  }

  lemma BucketEvents(glob: Glob, s: Subscription, key: TopicKey, p: nat, bucket: seq<Event>, offset: nat)
    requires AnchoredBucket(key, p, bucket)
    ensures Distinct(FromBucket(glob, s, bucket, offset))
    ensures forall e :: e in FromBucket(glob, s, bucket, offset) <==>
              && e.topic == key && e.partition == p && offset <= e.offset < |bucket| && bucket[e.offset] == e
              && Matches(glob, s, e)
  {
    if offset < |bucket| {
      var tail := bucket[offset..];
      assert Distinct(tail) by {
        forall i, j | 0 <= i < j < |tail| ensures tail[i] != tail[j] {
          assert tail[i].offset == offset + i && tail[j].offset == offset + j;
        }
      }
      FilterKeepsDistinct(tail, (e: Event) => Matches(glob, s, e));
      forall e: Event | e.topic == key && e.partition == p && offset <= e.offset < |bucket| && bucket[e.offset] == e
        ensures e in tail
      {
        assert tail[e.offset - offset] == e;
      }
    }
  }

  ghost predicate AnchoredTopic(key: TopicKey, partitions: seq<seq<Event>>) {
    forall p :: 0 <= p < |partitions| ==> AnchoredBucket(key, p, partitions[p])
  }

  lemma {:induction false} TopicEvents(glob: Glob, s: Subscription, key: TopicKey, partitions: seq<seq<Event>>,
                                       offsets: Offsets)
    requires AnchoredTopic(key, partitions)
    ensures Distinct(FromTopic(glob, s, partitions, offsets))
    ensures forall e :: e in FromTopic(glob, s, partitions, offsets) <==>
              && InTopic(TopicLog(key, partitions), e) && e.offset >= Offset(offsets, e.partition) &&
                  Matches(glob, s, e)
    decreases |partitions|
  {
    if partitions != [] {
      var p := |partitions| - 1;
      TopicEvents(glob, s, key, partitions[..p], offsets);
      BucketEvents(glob, s, key, p, partitions[p], Offset(offsets, p));
      DistinctConcat(FromTopic(glob, s, partitions[..p], offsets),
          FromBucket(glob, s, partitions[p], Offset(offsets, p)));
    }
  }

  lemma AnchoredTopics(logs: Logs, t: nat)
    requires Anchored(logs) && t < |logs|
    ensures AnchoredTopic(logs[t].key, logs[t].partitions) && Anchored(logs[..t])
  {}

  /** The candidates of a pull are exactly the published matching events at or above the group's
      offset of their partition, each once. */
  lemma {:induction false} CandidatesExact(glob: Glob, s: Subscription, logs: Logs, offsets: Offsets)
    requires Anchored(logs)
    ensures Distinct(Candidates(glob, s, logs, offsets))
    ensures forall e :: e in Candidates(glob, s, logs, offsets) <==>
              Published(logs, e) && Matches(glob, s, e) && e.offset >= Offset(offsets, e.partition)
    decreases |logs|
  {
    if logs != [] {
      hide Anchored, AnchoredTopic, Matches, Distinct, InTopic;
      var t := |logs| - 1;
      AnchoredTopics(logs, t);
      CandidatesExact(glob, s, logs[..t], offsets);
      var rest, own := Candidates(glob, s, logs[..t], offsets), FromTopic(glob, s, logs[t].partitions, offsets);
      TopicEvents(glob, s, logs[t].key, logs[t].partitions, offsets);
      LastTopic(glob, s, logs);
      forall e | e in rest ensures e !in own {}
      DistinctConcat(rest, own);
    }
  }

  /** Published events lie in the last topic or in an earlier one, never in both, and only topics
      the subscription looks at hold matching events. */
  lemma LastTopic(glob: Glob, s: Subscription, logs: Logs)
    requires Anchored(logs) && logs != []
    ensures var t := |logs| - 1;
            && logs[t] == TopicLog(logs[t].key, logs[t].partitions)
            && (forall e :: Published(logs, e) <==> Published(logs[..t], e) || InTopic(logs[t], e))
            && (forall e :: Published(logs[..t], e) ==> !InTopic(logs[t], e))
            && (forall e :: InTopic(logs[t], e) && Matches(glob, s, e) ==>
                  logs[t].key.scope == s.group.scope && glob(logs[t].key.name, s.pattern))
  {
    var t := |logs| - 1;
    forall e | Published(logs[..t], e) ensures Published(logs, e) && !InTopic(logs[t], e) {
      var u :| 0 <= u < t && InTopic(logs[..t][u], e);
      assert logs[u].key != logs[t].key && InTopic(logs[u], e);
    }
    forall e | Published(logs, e) ensures Published(logs[..t], e) || InTopic(logs[t], e) {
      var u :| 0 <= u < |logs| && InTopic(logs[u], e);
      assert u < t ==> InTopic(logs[..t][u], e);
    }
  }

  lemma SoonerOrder()
    ensures TotalPreorder(Sooner)
  {}

  /** One pull delivers candidates only, each once, the soonest first; all of them when they fit. */
  lemma DeliveredSoonest(glob: Glob, s: Subscription, logs: Logs, offsets: Offsets, limit: int)
    requires Anchored(logs)
    ensures var d := Delivered(glob, s, logs, offsets, limit);
            && Distinct(d) && SortedBy(d, Sooner)
            && (forall e :: e in d ==>
                  Published(logs, e) && Matches(glob, s, e) && e.offset >= Offset(offsets, e.partition))
            && (|Candidates(glob, s, logs, offsets)| <= Batch(limit) ==>
                  forall e :: e in Candidates(glob, s, logs, offsets) ==> e in d)
            && (forall e, f :: e in d && f in Candidates(glob, s, logs, offsets) && f !in d ==> Sooner(e, f))
  {
    CandidatesExact(glob, s, logs, offsets);
    hide Candidates, Anchored, Published, Matches, Sooner;
    SoonestFirst(Candidates(glob, s, logs, offsets), Batch(limit));
  }

  /** d is a whole answer to a pull, told by the events themselves: published events from the offsets
      on, of the scope, with a matching topic name and with every filtered payload entry as asked for,
      each once; by falling priority, then time, then partition, then offset; at most limit and at
      most 1000 of them, and none left out while there is room or before one that ranks behind it. */
  ghost predicate Answers(glob: Glob, s: Subscription, logs: Logs, offsets: Offsets, limit: int, d: seq<Event>) {
    && Distinct(d) && |d| <= 1000 && (if limit < 0 then d == [] else |d| <= limit)
    && (forall e :: e in d ==> Published(logs, e) && Selected(glob, s, offsets, e))
    && (forall i, j :: 0 <= i < j < |d| ==> RanksAhead(d[i], d[j]))
    && (forall e, f :: e in d && Published(logs, f) && Selected(glob, s, offsets, f) && f !in d ==> RanksAhead(e, f))
    && (|d| < limit && |d| < 1000 ==> forall f :: Published(logs, f) && Selected(glob, s, offsets, f) ==> f in d)
  }

  ghost predicate Selected(glob: Glob, s: Subscription, offsets: Offsets, e: Event) {
    && e.topic.scope == s.group.scope && glob(e.topic.name, s.pattern)
    && (forall k :: k in s.filters ==> k in e.payload && e.payload[k] == s.filters[k])
    && (e.partition in offsets ==> offsets[e.partition] <= e.offset)
  }

  /** At the first of priority, time, partition and offset in which they differ, a is the higher in
      priority or the smaller in the others. */
  ghost predicate RanksAhead(a: Event, b: Event) {
    || a.priority > b.priority
    || (a.priority == b.priority && a.publishedAt < b.publishedAt)
    || (a.priority == b.priority && a.publishedAt == b.publishedAt && a.partition < b.partition)
    || (a.priority == b.priority && a.publishedAt == b.publishedAt && a.partition == b.partition
        && a.offset <= b.offset)
  }

  lemma DeliveredExact(glob: Glob, s: Subscription, logs: Logs, offsets: Offsets, limit: int)
    requires Anchored(logs)
    ensures Answers(glob, s, logs, offsets, limit, Delivered(glob, s, logs, offsets, limit))
  {
    DeliveredSoonest(glob, s, logs, offsets, limit);
    CandidatesExact(glob, s, logs, offsets);
    forall e ensures Matches(glob, s, e) && e.offset >= Offset(offsets, e.partition) <==> Selected(glob, s, offsets, e)
    {
      SelectedIff(glob, s, offsets, e);
    }
    forall a, b ensures Sooner(a, b) <==> RanksAhead(a, b) {}
    hide Candidates, Published, Matches, Selected, Sooner, RanksAhead, Anchored, Distinct;
  }

  lemma SelectedIff(glob: Glob, s: Subscription, offsets: Offsets, e: Event)
    ensures Selected(glob, s, offsets, e) <==> Matches(glob, s, e) && e.offset >= Offset(offsets, e.partition)
  {}

  /** The first n of the sorted events: the n soonest. */
  lemma SoonestFirst(c: seq<Event>, n: nat)
    requires Distinct(c)
    ensures var sorted := SortBy(c, Sooner);
            var d := if |sorted| <= n then sorted else sorted[..n];
            && Distinct(d) && SortedBy(d, Sooner)
            && (forall e :: e in d ==> e in c)
            && (|c| <= n ==> forall e :: e in c ==> e in d)
            && (forall e, f :: e in d && f in c && f !in d ==> Sooner(e, f))
  {
    var sorted := SortBy(c, Sooner);
    var d := if |sorted| <= n then sorted else sorted[..n];
    SameElements(sorted, c);
    SortedDistinct(c);
    SoonerOrder();
    SortSorted(c, Sooner);
    hide Sooner, SortBy;
    assert forall k :: 0 <= k < |d| ==> d[k] == sorted[k];
    forall e, f | e in d && f in c && f !in d ensures Sooner(e, f) {
      var i :| 0 <= i < |d| && d[i] == e;
      var j :| 0 <= j < |sorted| && sorted[j] == f;
      assert sorted[i] == e;
    }
    forall e | e in d ensures e in sorted {}
  }

  lemma SortedDistinct(c: seq<Event>)
    requires Distinct(c)
    ensures Distinct(SortBy(c, Sooner))
  {
    var r := SortBy(c, Sooner);
    SameElements(r, c);
    DistinctIff(c);
    DistinctIff(r);
    assert Elements(r) == Elements(c);
  }

  // ---------- keeping the log ----------

  /** Appending an event at the end of one bucket. */
  function Append(logs: Logs, t: nat, p: nat, payload: map<string, string>, at: real, priority: int): Logs
    requires t < |logs| && p < |logs[t].partitions|
  {
    var bucket := logs[t].partitions[p];
    logs[t := TopicLog(logs[t].key, logs[t].partitions[p :=
      bucket + [Event(logs[t].key, p, |bucket|, payload, at, priority)]])]
  }

  lemma AppendPublishes(logs: Logs, t: nat, p: nat, payload: map<string, string>, at: real, priority: int)
    requires Anchored(logs) && t < |logs| && p < |logs[t].partitions|
    ensures var after := Append(logs, t, p, payload, at, priority);
            var e := Event(logs[t].key, p, |logs[t].partitions[p]|, payload, at, priority);
            Anchored(after) && forall f :: Published(after, f) <==> Published(logs, f) || f == e
  {
    var after := Append(logs, t, p, payload, at, priority);
    var e := Event(logs[t].key, p, |logs[t].partitions[p]|, payload, at, priority);
    forall f ensures Published(after, f) <==> Published(logs, f) || f == e {
      if Published(after, f) {
        var u :| 0 <= u < |after| && InTopic(after[u], f);
        if f != e {
          assert InTopic(logs[u], f);
        }
      }
      if Published(logs, f) {
        var u :| 0 <= u < |logs| && InTopic(logs[u], f);
        assert InTopic(after[u], f);
      }
      if f == e {
        assert InTopic(after[t], e);
      }
    }
  }

  lemma PublishedIn(logs: Logs, t: nat)
    requires Anchored(logs) && t < |logs|
    ensures forall e :: (exists p :: 0 <= p < |logs[t].partitions| && e in logs[t].partitions[p]) <==>
              Published(logs, e) && e.topic == logs[t].key
  {
    forall e | Published(logs, e) && e.topic == logs[t].key
      ensures exists p :: 0 <= p < |logs[t].partitions| && e in logs[t].partitions[p]
    {
      var u :| 0 <= u < |logs| && InTopic(logs[u], e);
      assert u == t;
      assert e in logs[t].partitions[e.partition];
    }
    forall p, e | 0 <= p < |logs[t].partitions| && e in logs[t].partitions[p]
      ensures Published(logs, e) && e.topic == logs[t].key
    {
      var i :| 0 <= i < |logs[t].partitions[p]| && logs[t].partitions[p][i] == e;
      assert InTopic(logs[t], e);
    }
  }

  function TopicIndex(logs: Logs, key: TopicKey): (t: nat)
    ensures t <= |logs|
    ensures t < |logs| ==> logs[t].key == key
    ensures t == |logs| ==> forall u :: 0 <= u < |logs| ==> logs[u].key != key
  {
    if logs == [] then 0
    else if logs[0].key == key then 0
    else
      var t := TopicIndex(logs[1..], key);
      assert forall u :: 0 < u < |logs| ==> logs[u] == logs[1..][u - 1];
      1 + t
  }

  function ZeroOffsets(partitions: nat): (r: Offsets)
    ensures forall p: nat :: p in r <==> p < partitions
    ensures forall p: nat :: p in r ==> r[p] == 0
  {
    if partitions == 0 then map[] else ZeroOffsets(partitions - 1)[partitions - 1 := 0]
  }
}
