/** Replaying a topic in event_streaming/platform.py: what is replayed and where it puts the offsets. */
module Replaying {
  import opened Wrappers
  import opened Sorting
  import opened EventLog

  datatype Range = Range(offset: Option<int>, start: Option<real>, end: Option<real>)

  predicate InRange(r: Range, e: Event) {
    && (r.offset.None? || e.offset >= r.offset.value)
    && (r.start.None? || e.publishedAt >= r.start.value)
    && (r.end.None? || e.publishedAt <= r.end.value)
  }

  function Replayed(partitions: seq<seq<Event>>, range: Range, keep: Event -> bool): (r: seq<Event>)
    ensures forall e :: e in r <==>
              (exists p :: 0 <= p < |partitions| && e in partitions[p]) && InRange(range, e) && keep(e)
  {
    if partitions == [] then []
    else
      var p := |partitions| - 1;
      assert forall q :: 0 <= q < p ==> partitions[..p][q] == partitions[q];
      var rest := Replayed(partitions[..p], range, keep);
      rest + Filter(partitions[p], (e: Event) => InRange(range, e) && keep(e))
  }

  /** The least offset replayed in the partition, if any. */
  function LeastOffset(replayed: seq<Event>, partition: nat): (r: Option<nat>)
    ensures r.None? ==> forall e :: e in replayed ==> e.partition != partition
    ensures r.Some? ==> (exists e :: e in replayed && e.partition == partition && e.offset == r.value)
                        && forall e :: e in replayed && e.partition == partition ==> r.value <= e.offset
  {
    if replayed == [] then None
    else
      var n := |replayed| - 1;
      var e, rest := replayed[n], LeastOffset(replayed[..n], partition);
      assert replayed == replayed[..n] + [e];
      if e.partition != partition then rest
      else if rest.None? || e.offset < rest.value then Some(e.offset) else rest
  }

  /** Where a replay puts the offsets of the partitions tracked by the group: at the least replayed
      one, be it back or forward. */
  function Repositioned(offsets: Offsets, replayed: seq<Event>): Offsets {
    map p | p in offsets ::
      var least := LeastOffset(replayed, p);
      if least.Some? then least.value else offsets[p]
  }

  /** After a replay every replayed event of a tracked partition lies at or above the offset, which
      is the least such event's; partitions without replayed events keep theirs. */
  lemma ReplayPositions(offsets: Offsets, replayed: seq<Event>, p: nat)
    requires p in offsets
    ensures forall e :: e in replayed && e.partition == p ==> Offset(Repositioned(offsets, replayed), p) <= e.offset
    ensures (exists e :: e in replayed && e.partition == p) ==>
              exists e :: e in replayed && e.partition == p && e.offset == Offset(Repositioned(offsets, replayed), p)
    ensures (forall e :: e in replayed ==> e.partition != p) ==>
        Offset(Repositioned(offsets, replayed), p) == offsets[p]
    ensures Repositioned(offsets, replayed).Keys == offsets.Keys
  {
    var least := LeastOffset(replayed, p);
  }

  /** Partition after partition, each in the order of its offsets. */
  lemma {:induction false} ReplayedInOrder(key: TopicKey, partitions: seq<seq<Event>>, range: Range,
                                           keep: Event -> bool)
    requires AnchoredTopic(key, partitions)
    ensures var r := Replayed(partitions, range, keep);
            && (forall e :: e in r ==> e.partition < |partitions|)
            && forall i, j :: 0 <= i < j < |r| ==>
                 r[i].partition < r[j].partition || (r[i].partition == r[j].partition && r[i].offset < r[j].offset)
    decreases |partitions|
  {
    if partitions != [] {
      var p := |partitions| - 1;
      var bucket, test := partitions[p], (e: Event) => InRange(range, e) && keep(e);
      ReplayedInOrder(key, partitions[..p], range, keep);
      FilterKeepsOrder(bucket, test);
      var rest, own := Replayed(partitions[..p], range, keep), Filter(bucket, test);
      assert AnchoredBucket(key, p, bucket);
      forall i | 0 <= i < |own| ensures own[i].partition == p {
        assert own[i] in own;
      }
      forall i, j | 0 <= i < j < |own| ensures own[i].offset < own[j].offset {
        assert Before(own, own[i], own[j]);
      }
      forall i | 0 <= i < |rest| ensures rest[i].partition < p {
        assert rest[i] in rest;
      }
      assert Replayed(partitions, range, keep) == rest + own;
    }
  }

  /** What a replay returns, by the events' own fields. */
  lemma ReplayedExact(logs: Logs, t: nat, range: Range, keep: Event -> bool)
    requires Anchored(logs) && t < |logs|
    ensures var r := Replayed(logs[t].partitions, range, keep);
            && (forall e :: e in r <==>
                  && Published(logs, e) && e.topic == logs[t].key && keep(e)
                  && (range.offset.Some? ==> e.offset >= range.offset.value)
                  && (range.start.Some? ==> range.start.value <= e.publishedAt)
                  && (range.end.Some? ==> e.publishedAt <= range.end.value))
            && forall i, j :: 0 <= i < j < |r| ==>
                 r[i].partition < r[j].partition || (r[i].partition == r[j].partition && r[i].offset < r[j].offset)
  {
    PublishedIn(logs, t);
    AnchoredTopics(logs, t);
    ReplayedInOrder(logs[t].key, logs[t].partitions, range, keep);
    hide Published, Anchored, AnchoredTopic;
  }
}
