/** The topics and consumer groups of event_streaming/platform.py. */
module EventStreaming {
  import opened Graphs
  import opened EventLog
  import opened Replaying
  import opened AtMostOnce

  datatype Delivery = AtLeastOnce | AtMostOnce

  datatype Group = Group(topic: TopicKey, delivery: Delivery, offsets: Offsets, checkpoints: Offsets)

  datatype Error = NotFound | AlreadyExists | Invalid | AccessDenied

  datatype Result<T> = Success(value: T) | Failure(error: Error)

  type Record = map<GroupKey, seq<Event>>

  /** Every undisturbed at-most-once group has been given everything once and nothing again. */
  ghost predicate Guarded(groups: map<GroupKey, Group>, delivered: Record, disturbed: set<GroupKey>) {
    && groups.Keys <= delivered.Keys
    && forall g :: g in groups && groups[g].delivery.AtMostOnce? && g !in disturbed ==>
        Once(groups[g].offsets, delivered[g])
  }

  lemma GuardedUpdate(groups: map<GroupKey, Group>, delivered: Record, disturbed: set<GroupKey>,
                      g: GroupKey, group: Group, given: seq<Event>, disturbed': set<GroupKey>)
    requires Guarded(groups, delivered, disturbed) && disturbed <= disturbed'
    requires group.delivery.AtMostOnce? && g !in disturbed' ==> Once(group.offsets, given)
    ensures Guarded(groups[g := group], delivered[g := given], disturbed')
  {
    hide Once;
  }

  lemma GuardedKnown(groups: map<GroupKey, Group>, delivered: Record, disturbed: set<GroupKey>, g: GroupKey)
    requires Guarded(groups, delivered, disturbed) && g in groups
    ensures g in delivered && delivered[g := delivered[g]] == delivered
    ensures groups[g].delivery.AtMostOnce? && g !in disturbed ==> Once(groups[g].offsets, delivered[g])
  {
    hide Once;
  }

  class EventStreamingPlatform {
    const glob: Glob
    var logs: Logs
    var groups: map<GroupKey, Group>
    /** everything each group was ever given by pull, in order */
    ghost var delivered: map<GroupKey, seq<Event>>
    /** groups a replay or a further registration has set back below something they were given */
    ghost var disturbed: set<GroupKey>

    ghost predicate Valid()
      reads this
    {
      Anchored(logs) && Guarded(groups, delivered, disturbed)
    }

    constructor (glob: Glob)
      ensures Valid() && logs == [] && groups == map[]
    {
      this.glob := glob;
      logs, groups, delivered, disturbed := [], map[], map[], {};
    }

    method CreateTopic(key: TopicKey, partitions: nat) returns (r: Result<TopicKey>)
      requires Valid()
      modifies this`logs
      ensures Valid()
      ensures r.Success? <==> partitions >= 1 && forall t :: 0 <= t < |old(logs)| ==> old(logs)[t].key != key
      ensures logs == if r.Success? then old(logs) + [TopicLog(key, seq(partitions, _ => []))] else old(logs)
    {
      if partitions < 1 {
        return Failure(Invalid);
      }
      if TopicIndex(logs, key) < |logs| {
        return Failure(AlreadyExists);
      }
      logs := logs + [TopicLog(key, seq(partitions, _ => []))];
      r := Success(key);
    }

    /** Offsets start at zero for every partition of the group's topic. */
    method CreateConsumerGroup(g: GroupKey, topic: TopicKey, delivery: Delivery) returns (r: Result<Group>)
      requires Valid()
      modifies this`groups, this`delivered, this`disturbed
      ensures Valid()
      ensures r.Success? <==> topic.scope == g.scope && exists t :: 0 <= t < |logs| && logs[t].key == topic
      ensures r.Failure? ==> groups == old(groups) && delivered == old(delivered) && disturbed == old(disturbed)
      ensures r.Success? ==>
                && groups == old(groups)[g := r.value]
                && var t := TopicIndex(logs, topic);
                && t < |logs| && var zeros := ZeroOffsets(|logs[t].partitions|);
                && r.value == Group(topic, delivery, zeros, zeros)
                && (forall p :: Offset(r.value.offsets, p) == 0)
                && disturbed == (if g in old(groups) && old(delivered)[g] != [] then old(disturbed) + {g}
                                 else old(disturbed))
                && delivered == (if g in old(groups) then old(delivered) else old(delivered)[g := []])
    {
      hide Anchored, Guarded, Once;
      var t := TopicIndex(logs, topic);
      if topic.scope != g.scope || t == |logs| {
        return Failure(NotFound);
      }
      var offsets := ZeroOffsets(|logs[t].partitions|);
      var group := Group(topic, delivery, offsets, offsets);
      if g in groups {
        GuardedKnown(groups, delivered, disturbed, g);
      }
      ghost var given := if g in groups then delivered[g] else [];
      ghost var marked := if given == [] then disturbed else disturbed + {g};
      FreshOnceIff(|logs[t].partitions|, given);
      GuardedUpdate(groups, delivered, disturbed, g, group, given, marked);
      groups, delivered, disturbed := groups[g := group], delivered[g := given], marked;
      r := Success(group);
    }

    /** conforms is the outcome of the size, secret and schema checks; partition is the hashed
        partition key. */
    method PublishEvent(topic: TopicKey, partition: nat, payload: map<string, string>, at: real, priority: int,
                        conforms: bool)
      returns (r: Result<Event>)
      requires Valid()
      requires forall t :: 0 <= t < |logs| && logs[t].key == topic ==> partition < |logs[t].partitions|
      modifies this`logs
      ensures Valid()
      ensures r.Success? <==> conforms && exists t :: 0 <= t < |old(logs)| && old(logs)[t].key == topic
      ensures r.Failure? ==> logs == old(logs)
      ensures r.Success? ==>
                && var t := TopicIndex(old(logs), topic);
                && t < |old(logs)| && r.value == Event(topic, partition, |old(logs)[t].partitions[partition]|,
                    payload, at, priority)
                && logs == Append(old(logs), t, partition, payload, at, priority)
                && forall f :: Published(logs, f) <==> Published(old(logs), f) || f == r.value
    {
      var t := TopicIndex(logs, topic);
      if t == |logs| {
        return Failure(NotFound);
      }
      if !conforms {
        return Failure(Invalid);
      }
      AppendPublishes(logs, t, partition, payload, at, priority);
      var event := Event(topic, partition, |logs[t].partitions[partition]|, payload, at, priority);
      logs := Append(logs, t, partition, payload, at, priority);
      r := Success(event);
    }

    /** An at-most-once group moves its offsets past everything it is given. */
    method Pull(s: Subscription, limit: int) returns (r: Result<seq<Event>>)
      requires Valid()
      modifies this`groups, this`delivered
      ensures Valid()
      ensures r.Success? <==> s.group in old(groups)
      ensures r.Failure? ==> groups == old(groups) && delivered == old(delivered)
      ensures r.Success? ==>
                var group := old(groups)[s.group];
                && r.value == Delivered(glob, s, logs, group.offsets, limit)
                && Answers(glob, s, logs, group.offsets, limit, r.value)
                && delivered == old(delivered)[s.group := old(delivered)[s.group] + r.value]
                && groups == if group.delivery.AtMostOnce?
                             then old(groups)[s.group := group.(offsets := AdvanceAll(group.offsets, r.value))]
                             else old(groups)
    {
      hide Delivered, Answers, Once, Anchored, Guarded;
      if s.group !in groups {
        return Failure(NotFound);
      }
      GuardedKnown(groups, delivered, disturbed, s.group);
      var group := groups[s.group];
      var events := Delivered(glob, s, logs, group.offsets, limit);
      DeliveredExact(glob, s, logs, group.offsets, limit);
      ghost var given := delivered[s.group];
      if group.delivery.AtMostOnce? {
        if s.group !in disturbed {
          OncePull(glob, s, logs, group.offsets, given, limit);
        }
        var offsets := group.offsets;
        for k := 0 to |events|
          invariant offsets == AdvanceAll(group.offsets, events[..k])
        {
          assert events[..k + 1][..k] == events[..k];
          offsets := Advance(offsets, events[k]);
        }
        assert events[..|events|] == events;
        group := group.(offsets := offsets);
      }
      GuardedUpdate(groups, delivered, disturbed, s.group, group, given + events, disturbed);
      groups, delivered := groups[s.group := group], delivered[s.group := given + events];
      r := Success(events);
    }

    /** Any event of the scope may be acknowledged; the offset never falls. */
    method Acknowledge(g: GroupKey, e: Event) returns (r: Result<Group>)
      requires Valid()
      modifies this`groups
      ensures Valid()
      ensures r.Success? <==> g in old(groups) && e.topic.scope == g.scope
      ensures groups == if r.Success? then old(groups)[g :=
          old(groups)[g].(offsets := Advance(old(groups)[g].offsets, e))]
                        else old(groups)
    {
      hide Once, Anchored, Guarded, Advance;
      if g !in groups {
        return Failure(NotFound);
      }
      if e.topic.scope != g.scope {
        return Failure(AccessDenied);
      }
      GuardedKnown(groups, delivered, disturbed, g);
      if groups[g].delivery.AtMostOnce? && g !in disturbed {
        OnceAdvance(groups[g].offsets, delivered[g], e);
      }
      var group := groups[g].(offsets := Advance(groups[g].offsets, e));
      GuardedUpdate(groups, delivered, disturbed, g, group, delivered[g], disturbed);
      groups := groups[g := group];
      r := Success(groups[g]);
    }

    method Checkpoint(g: GroupKey) returns (r: Result<Offsets>)
      requires Valid()
      modifies this`groups
      ensures Valid()
      ensures r.Success? <==> g in old(groups)
      ensures r.Success? ==> r.value == old(groups)[g].offsets
      ensures groups == if r.Success? then old(groups)[g := old(groups)[g].(checkpoints := old(groups)[g].offsets)]
          else old(groups)
    {
      hide Once, Anchored, Guarded;
      if g !in groups {
        return Failure(NotFound);
      }
      GuardedKnown(groups, delivered, disturbed, g);
      var group := groups[g].(checkpoints := groups[g].offsets);
      GuardedUpdate(groups, delivered, disturbed, g, group, delivered[g], disturbed);
      groups := groups[g := group];
      r := Success(groups[g].checkpoints);
    }

    method Replay(g: GroupKey, range: Range, keep: Event -> bool) returns (r: Result<seq<Event>>)
      requires Valid()
      modifies this`groups, this`disturbed
      ensures Valid()
      ensures r.Success? <==> g in old(groups) && exists t :: 0 <= t < |logs| && logs[t].key == old(groups)[g].topic
      ensures r.Failure? ==> groups == old(groups) && disturbed == old(disturbed)
      ensures r.Success? ==>
                && var t := TopicIndex(logs, old(groups)[g].topic);
                && t < |logs| && r.value == Replayed(logs[t].partitions, range, keep)
                && (forall e :: e in r.value <==>
                      && Published(logs, e) && e.topic == old(groups)[g].topic && keep(e)
                      && (range.offset.Some? ==> e.offset >= range.offset.value)
                      && (range.start.Some? ==> range.start.value <= e.publishedAt)
                      && (range.end.Some? ==> e.publishedAt <= range.end.value))
                && (forall i, j :: 0 <= i < j < |r.value| ==>
                      || r.value[i].partition < r.value[j].partition
                      || (r.value[i].partition == r.value[j].partition && r.value[i].offset < r.value[j].offset))
                && groups == old(groups)[g := old(groups)[g].(offsets := Repositioned(old(groups)[g].offsets, r.value))]
                && disturbed == (if Clear(old(groups)[g].offsets, r.value, delivered[g]) then old(disturbed)
                                 else old(disturbed) + {g})
    {
      if g !in groups {
        return Failure(NotFound);
      }
      var t := TopicIndex(logs, groups[g].topic);
      if t == |logs| {
        return Failure(NotFound);
      }
      var events := Replayed(logs[t].partitions, range, keep);
      ReplayedExact(logs, t, range, keep);
      hide Anchored, Guarded, Once, Replayed, Repositioned, Published, Clear;
      GuardedKnown(groups, delivered, disturbed, g);
      if groups[g].delivery.AtMostOnce? && g !in disturbed {
        ReplayOnceIff(groups[g].offsets, events, delivered[g]);
      }
      var group := groups[g].(offsets := Repositioned(groups[g].offsets, events));
      ghost var marked := if Clear(groups[g].offsets, events, delivered[g]) then disturbed else disturbed + {g};
      GuardedUpdate(groups, delivered, disturbed, g, group, delivered[g], marked);
      groups, disturbed := groups[g := group], marked;
      r := Success(events);
    }

    /** At most once, over every run: no event is given to the group twice unless a replay or a
        further registration has set it back below something it was given. */
    lemma AtMostOnceRun(g: GroupKey)
      requires Valid() && g in groups && groups[g].delivery.AtMostOnce? && g !in disturbed
      ensures Distinct(delivered[g])
    {}
  }
}
