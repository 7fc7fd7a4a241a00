/** The at-most-once guarantee of a consumer group of event_streaming/platform.py, with exactly what
    ends it. */
module AtMostOnce {
  import opened Graphs
  import opened EventLog
  import opened Replaying

  /** An at-most-once group has delivered nothing twice, and nothing it delivered can come again. */
  ghost predicate Once(offsets: Offsets, delivered: seq<Event>) {
    Distinct(delivered) && forall e :: e in delivered ==> e.offset < Offset(offsets, e.partition)
  }

  lemma OncePull(glob: Glob, s: Subscription, logs: Logs, offsets: Offsets, delivered: seq<Event>, limit: int)
    requires Anchored(logs) && Once(offsets, delivered)
    ensures var d := Delivered(glob, s, logs, offsets, limit);
            Once(AdvanceAll(offsets, d), delivered + d)
  {
    var d := Delivered(glob, s, logs, offsets, limit);
    DeliveredSoonest(glob, s, logs, offsets, limit);
    DistinctConcat(delivered, d);
    AdvanceAllOffset(offsets, d);
  }

  lemma OnceAdvance(offsets: Offsets, delivered: seq<Event>, e: Event)
    requires Once(offsets, delivered)
    ensures Once(Advance(offsets, e), delivered)
  {
    forall p ensures Offset(Advance(offsets, e), p) >= Offset(offsets, p) {}
  }

  // ---------- what ends the at-most-once guarantee ----------

  /** Registering a group again keeps the guarantee exactly when it was never given anything. */
  lemma FreshOnceIff(partitions: nat, delivered: seq<Event>)
    ensures Once(ZeroOffsets(partitions), delivered) <==> delivered == []
  {
    if delivered != [] {
      assert delivered[0] in delivered;
    }
  }

  /** No replayed event of a tracked partition lies at or below a delivered one. */
  predicate Clear(offsets: Offsets, replayed: seq<Event>, delivered: seq<Event>) {
    forall e, d :: e in replayed && d in delivered && e.partition in offsets && d.partition == e.partition ==>
        d.offset < e.offset
  }

  /** A replay keeps the guarantee exactly when it is clear of what was delivered. */
  lemma ReplayOnceIff(offsets: Offsets, replayed: seq<Event>, delivered: seq<Event>)
    requires Once(offsets, delivered)
    ensures Once(Repositioned(offsets, replayed), delivered) <==> Clear(offsets, replayed, delivered)
  {
    var after := Repositioned(offsets, replayed);
    forall d | d in delivered
      ensures d.offset < Offset(after, d.partition) <==>
              forall e :: e in replayed && e.partition == d.partition ==> d.offset < e.offset
    {
      assert d.partition in offsets;
      ReplayPositions(offsets, replayed, d.partition);
    }
  }

  /** With room for all that waits, a pull repeats an event exactly when something delivered before
      is still published and lies at or above the offset. */
  lemma PullRepeatsIff(glob: Glob, s: Subscription, logs: Logs, offsets: Offsets, delivered: seq<Event>, limit: int)
    requires Anchored(logs) && Distinct(delivered) && |Candidates(glob, s, logs, offsets)| <= Batch(limit)
    ensures Distinct(delivered + Delivered(glob, s, logs, offsets, limit)) <==>
            forall d :: d in delivered && Published(logs, d) && Matches(glob, s, d) ==>
                d.offset < Offset(offsets, d.partition)
  {
    CandidatesExact(glob, s, logs, offsets);
    DeliveredSoonest(glob, s, logs, offsets, limit);
    hide Candidates, Delivered, Anchored, Published, Matches, Sooner;
    var batch := Delivered(glob, s, logs, offsets, limit);
    if forall d :: d in delivered ==> d !in batch {
      DistinctConcat(delivered, batch);
    } else {
      var d :| d in delivered && d in batch;
      NotDistinct(delivered, batch, d);
    }
  }

  lemma NotDistinct(a: seq<Event>, b: seq<Event>, x: Event)
    requires x in a && x in b
    ensures !Distinct(a + b)
  {
    var i :| 0 <= i < |a| && a[i] == x;
    var j :| 0 <= j < |b| && b[j] == x;
    assert (a + b)[i] == x && (a + b)[|a| + j] == x;
  }

  /** A replay that is not clear of a delivered event makes the next pull with room repeat it, when
      that event is still published and selected. */
  lemma ReplayRepeats(glob: Glob, s: Subscription, logs: Logs, offsets: Offsets, delivered: seq<Event>,
                      replayed: seq<Event>, e: Event, d: Event, limit: int)
    requires Anchored(logs) && Once(offsets, delivered)
    requires d in delivered && Published(logs, d) && Matches(glob, s, d)
    requires e in replayed && e.partition in offsets && e.partition == d.partition && e.offset <= d.offset
    requires |Candidates(glob, s, logs, Repositioned(offsets, replayed))| <= Batch(limit)
    ensures d in Delivered(glob, s, logs, Repositioned(offsets, replayed), limit)
    ensures !Distinct(delivered + Delivered(glob, s, logs, Repositioned(offsets, replayed), limit))
  {
    var after := Repositioned(offsets, replayed);
    ReplayPositions(offsets, replayed, e.partition);
    CandidatesExact(glob, s, logs, after);
    DeliveredSoonest(glob, s, logs, after, limit);
    hide Candidates, Delivered, Anchored, Published, Matches, Sooner, Repositioned;
    NotDistinct(delivered, Delivered(glob, s, logs, after, limit), d);
  }

  function OneEvent(key: TopicKey): Event {
    Event(key, 0, 0, map[], 0.0, 0)
  }

  /** One event, pulled, replayed and pulled again. */
  lemma DeliveredTwice(glob: Glob, s: Subscription, key: TopicKey)
    requires key.scope == s.group.scope && glob(key.name, s.pattern) && s.filters == map[]
    ensures var e, logs := OneEvent(key), [TopicLog(key, [[OneEvent(key)]])];
            var first := Delivered(glob, s, logs, ZeroOffsets(1), 1);
            var offsets := AdvanceAll(ZeroOffsets(1), first);
            && Once(offsets, first) && first == [e]
            && Delivered(glob, s, logs, Repositioned(offsets, [e]), 1) == [e]
  {
    var e, logs := OneEvent(key), [TopicLog(key, [[OneEvent(key)]])];
    assert InTopic(logs[0], e);
    OnlyOne(glob, s, logs, ZeroOffsets(1), e);
    var offsets := AdvanceAll(ZeroOffsets(1), [e]);
    AdvanceOne(ZeroOffsets(1), e);
    ReplayPositions(offsets, [e], 0);
    OnlyOne(glob, s, logs, Repositioned(offsets, [e]), e);
  }

  /** A delivered event that is still published and selected is delivered again after the group is
      registered anew, by the next pull with room. */
  lemma RegistrationRepeats(glob: Glob, s: Subscription, logs: Logs, partitions: nat, delivered: seq<Event>,
                            d: Event, limit: int)
    requires Anchored(logs) && d in delivered && Published(logs, d) && Matches(glob, s, d)
    requires |Candidates(glob, s, logs, ZeroOffsets(partitions))| <= Batch(limit)
    ensures d in Delivered(glob, s, logs, ZeroOffsets(partitions), limit)
    ensures !Distinct(delivered + Delivered(glob, s, logs, ZeroOffsets(partitions), limit))
  {
    CandidatesExact(glob, s, logs, ZeroOffsets(partitions));
    DeliveredSoonest(glob, s, logs, ZeroOffsets(partitions), limit);
    hide Candidates, Delivered, Anchored, Published, Matches, Sooner;
    NotDistinct(delivered, Delivered(glob, s, logs, ZeroOffsets(partitions), limit), d);
  }

  /** One event pulled, the group registered again, and the event pulled again. */
  lemma DeliveredAfterRegistration(glob: Glob, s: Subscription, key: TopicKey)
    requires key.scope == s.group.scope && glob(key.name, s.pattern) && s.filters == map[]
    ensures var e, logs := OneEvent(key), [TopicLog(key, [[OneEvent(key)]])];
            var first := Delivered(glob, s, logs, ZeroOffsets(1), 1);
            && first == [e] && Once(AdvanceAll(ZeroOffsets(1), first), first)
            && Delivered(glob, s, logs, AdvanceAll(ZeroOffsets(1), first), 1) == []
            && !Distinct(first + Delivered(glob, s, logs, ZeroOffsets(1), 1))
  {
    var e, logs := OneEvent(key), [TopicLog(key, [[OneEvent(key)]])];
    assert InTopic(logs[0], e);
    OnlyOne(glob, s, logs, ZeroOffsets(1), e);
    AdvanceOne(ZeroOffsets(1), e);
    NothingLeft(glob, s, logs, AdvanceAll(ZeroOffsets(1), [e]), e);
    NotDistinct([e], [e], e);
  }

  lemma NothingLeft(glob: Glob, s: Subscription, logs: Logs, offsets: Offsets, e: Event)
    requires Anchored(logs) && (forall f :: Published(logs, f) ==> f == e) && e.offset < Offset(offsets, e.partition)
    ensures Delivered(glob, s, logs, offsets, 1) == []
  {
    CandidatesExact(glob, s, logs, offsets);
    DeliveredSoonest(glob, s, logs, offsets, 1);
    hide Anchored, Published, Matches, Sooner, Candidates;
    NoMembers(Delivered(glob, s, logs, offsets, 1));
  }

  lemma OnlyOne(glob: Glob, s: Subscription, logs: Logs, offsets: Offsets, e: Event)
    requires Anchored(logs) && Published(logs, e) && Matches(glob, s, e) && Offset(offsets, e.partition) <= e.offset
    requires forall f :: Published(logs, f) ==> f == e
    ensures Delivered(glob, s, logs, offsets, 1) == [e]
  {
    CandidatesExact(glob, s, logs, offsets);
    DeliveredSoonest(glob, s, logs, offsets, 1);
    hide Anchored, Published, Matches, Sooner, Candidates;
    var c := Candidates(glob, s, logs, offsets);
    DistinctFits(c, {e});
    var d := Delivered(glob, s, logs, offsets, 1);
    hide Delivered;
    assert e in d;
    DistinctFits(d, {e});
    assert d[0] in d;
  }
}
