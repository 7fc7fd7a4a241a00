/** The sliding-window limiter of api_management/platform.py: per-bucket deques of timestamps that
    are purged as time passes, against the history that is never purged. */
module RateLimiter {

  datatype Scope = Scope(tenant: string, workspace: string)

  datatype Target = Route(id: string) | Consumer(id: string) | Tenant

  datatype LimitKey = LimitKey(target: Target, scope: Scope)

  datatype BucketKey = BucketKey(target: Target, apiId: string, scope: Scope)

  datatype Limit = Limit(perSecond: nat, perMinute: nat, burst: nat)

  /** The values a rate limit may be built with. */
  predicate ValidLimit(limit: Limit) {
    1 <= limit.perSecond <= 1_000_000 && 1 <= limit.perMinute <= 1_000_000 && 1 <= limit.burst <= 1_000_000
  }

  datatype Request = Request(routeId: string, consumer: string, apiId: string, scope: Scope)

  type Limits = map<LimitKey, Limit>

  type Buckets = map<BucketKey, seq<real>>

  function LimitOf(key: BucketKey): LimitKey {
    LimitKey(key.target, key.scope)
  }

  /** A missing bucket is empty. */
  function Bucket(buckets: Buckets, key: BucketKey): seq<real> {
    if key in buckets then buckets[key] else []
  }

  /** The buckets a request is counted in, in the order they are checked. */
  function KeysOf(request: Request): seq<BucketKey> {
    [BucketKey(Route(request.routeId), request.apiId, request.scope),
     BucketKey(Consumer(request.consumer), request.apiId, request.scope),
     BucketKey(Tenant, request.apiId, request.scope)]
  }

  // ---------- counting ----------

  /** The timestamps later than t. */
  function CountAfter(times: seq<real>, t: real): nat {
    if times == [] then 0
    else
      var n := |times| - 1;
      CountAfter(times[..n], t) + if times[n] > t then 1 else 0
  }

  /** The timestamps in the half-open window (lo, hi]. */
  function CountIn(times: seq<real>, lo: real, hi: real): nat {
    if times == [] then 0
    else
      var n := |times| - 1;
      CountIn(times[..n], lo, hi) + if lo < times[n] <= hi then 1 else 0
  }

  ghost predicate Sorted(times: seq<real>) {
    forall i, j :: 0 <= i < j < |times| ==> times[i] <= times[j]
  }

  lemma {:induction false} CountAfterNone(times: seq<real>, t: real)
    requires forall i :: 0 <= i < |times| ==> times[i] <= t
    ensures CountAfter(times, t) == 0
  {
    if times != [] {
      CountAfterNone(times[..|times| - 1], t);
    }
  }

  lemma {:induction false} CountAfterAll(times: seq<real>, t: real)
    requires forall i :: 0 <= i < |times| ==> times[i] > t
    ensures CountAfter(times, t) == |times|
  {
    if times != [] {
      CountAfterAll(times[..|times| - 1], t);
    }
  }

  lemma {:induction false} CountAfterConcat(a: seq<real>, b: seq<real>, t: real)
    ensures CountAfter(a + b, t) == CountAfter(a, t) + CountAfter(b, t)
  {
    if b == [] {
      assert a + b == a;
    } else {
      assert (a + b)[..|a| + |b| - 1] == a + b[..|b| - 1];
      CountAfterConcat(a, b[..|b| - 1], t);
    }
  }

  lemma {:induction false} CountAfterFalls(times: seq<real>, s: real, t: real)
    requires s <= t
    ensures CountAfter(times, t) <= CountAfter(times, s)
  {
    if times != [] {
      CountAfterFalls(times[..|times| - 1], s, t);
    }
  }

  // ---------- windows ----------

  /** When each entry was recorded, the window ending at it held at most cap entries. */
  ghost predicate Paced(times: seq<real>, width: real, cap: nat) {
    times == [] ||
    var n := |times| - 1;
    Paced(times[..n], width, cap) && CountAfter(times, times[n] - width) <= cap
  }

  lemma PacedAppend(times: seq<real>, width: real, cap: nat, now: real)
    requires Paced(times, width, cap) && width > 0.0 && CountAfter(times, now - width) < cap
    ensures Paced(times + [now], width, cap)
  {
    assert (times + [now])[..|times|] == times;
  }

  /** Then every window of that width, wherever it ends, holds at most cap entries. */
  lemma {:induction false} EveryWindow(times: seq<real>, width: real, cap: nat, t: real)
    requires Paced(times, width, cap) && Sorted(times)
    ensures CountIn(times, t - width, t) <= cap
  {
    if times != [] {
      var n := |times| - 1;
      if times[n] > t {
        EveryWindow(times[..n], width, cap, t);
      } else {
        CountUpTo(times, t - width, t);
        CountAfterFalls(times, times[n] - width, t - width);
      }
    }
  }

  lemma {:induction false} CountUpTo(times: seq<real>, lo: real, hi: real)
    requires forall i :: 0 <= i < |times| ==> times[i] <= hi
    ensures CountIn(times, lo, hi) == CountAfter(times, lo)
  {
    if times != [] {
      CountUpTo(times[..|times| - 1], lo, hi);
    }
  }

  // ---------- purged deque against full history ----------

  /** The deque is the history without a prefix of entries that have left the minute window. */
  ghost predicate Purged(bucket: seq<real>, history: seq<real>, clock: real) {
    && Sorted(history) && (forall i :: 0 <= i < |history| ==> history[i] <= clock)
    && |bucket| <= |history| && bucket == history[|history| - |bucket|..]
    && forall i :: 0 <= i < |history| - |bucket| ==> history[i] <= clock - 60.0
  }

  /** Deciding by counting over the whole history. */
  predicate Admits(limit: Limit, history: seq<real>, now: real) {
    CountAfter(history, now - 1.0) < limit.perSecond + limit.burst && CountAfter(history, now - 60.0) < limit.perMinute
  }

  lemma PurgedLater(bucket: seq<real>, history: seq<real>, clock: real, now: real)
    requires Purged(bucket, history, clock) && clock <= now
    ensures Purged(bucket, history, now)
  {}

  lemma PurgeOne(bucket: seq<real>, history: seq<real>, now: real)
    requires Purged(bucket, history, now) && bucket != [] && bucket[0] <= now - 60.0
    ensures Purged(bucket[1..], history, now)
  {
    var k := |history| - |bucket|;
    assert history[k] == bucket[0];
  }

  lemma PurgedCounts(bucket: seq<real>, history: seq<real>, now: real)
    requires Purged(bucket, history, now) && (bucket == [] || bucket[0] > now - 60.0)
    ensures CountAfter(history, now - 60.0) == |bucket|
    ensures CountAfter(history, now - 1.0) == CountAfter(bucket, now - 1.0)
  {
    var k := |history| - |bucket|;
    assert history == history[..k] + bucket;
    CountAfterConcat(history[..k], bucket, now - 60.0);
    CountAfterConcat(history[..k], bucket, now - 1.0);
    CountAfterNone(history[..k], now - 60.0);
    CountAfterNone(history[..k], now - 1.0);
    forall i | 0 <= i < |bucket| ensures bucket[i] > now - 60.0 {
      assert history[k] == bucket[0] && history[k + i] == bucket[i];
    }
    CountAfterAll(bucket, now - 60.0);
  }

  lemma PurgedAppend(bucket: seq<real>, history: seq<real>, now: real)
    requires Purged(bucket, history, now)
    ensures Purged(bucket + [now], history + [now], now)
  {
  }

  method Purge(bucket: seq<real>, ghost history: seq<real>, now: real) returns (r: seq<real>)
    requires Purged(bucket, history, now)
    ensures Purged(r, history, now) && (r == [] || r[0] > now - 60.0)
  {
    hide Purged;
    r := bucket;
    while r != [] && r[0] <= now - 60.0
      invariant Purged(r, history, now)
      decreases |r|
    {
      PurgeOne(r, history, now);
      r := r[1..];
    }
  }

  // ---------- one request ----------

  datatype Decision = Decision(accepted: bool, history: Buckets)

  /** Enforcing the limits over the full histories, bucket after bucket: a rejection keeps what
      earlier buckets have recorded. */
  function Decide(limits: Limits, keys: seq<BucketKey>, history: Buckets, now: real): Decision {
    if keys == [] then Decision(true, history)
    else
      var key := keys[0];
      if LimitOf(key) !in limits then Decide(limits, keys[1..], history, now)
      else if !Admits(limits[LimitOf(key)], Bucket(history, key), now) then Decision(false, history)
      else Decide(limits, keys[1..], history[key := Bucket(history, key) + [now]], now)
  }

  /** A bucket without a limit never refuses. */
  predicate Refuses(limits: Limits, history: Buckets, key: BucketKey, now: real) {
    LimitOf(key) in limits && !Admits(limits[LimitOf(key)], Bucket(history, key), now)
  }

  /** m is the position of the first bucket that refuses, or the number of buckets. */
  ghost predicate FirstRefusal(limits: Limits, keys: seq<BucketKey>, history: Buckets, now: real, m: nat) {
    && m <= |keys|
    && (forall i :: 0 <= i < m ==> !Refuses(limits, history, keys[i], now))
    && (m < |keys| ==> Refuses(limits, history, keys[m], now))
  }

  /** What a decision means: the limited buckets before the first refusal gain one entry, no other
      bucket changes, and the request is accepted when nothing refuses. */
  ghost predicate Decided(limits: Limits, keys: seq<BucketKey>, history: Buckets, now: real, m: nat, d: Decision)
    requires m <= |keys|
  {
    && (d.accepted <==> m == |keys|)
    && forall key :: Bucket(d.history, key) ==
         if key in keys[..m] && LimitOf(key) in limits then Bucket(history, key) + [now] else Bucket(history, key)
  }

  lemma {:induction false} DecideMeaning(limits: Limits, keys: seq<BucketKey>, history: Buckets, now: real)
    returns (m: nat)
    requires forall i, j :: 0 <= i < j < |keys| ==> keys[i] != keys[j]
    ensures m <= |keys|
    ensures FirstRefusal(limits, keys, history, now, m)
    ensures Decided(limits, keys, history, now, m, Decide(limits, keys, history, now))
    decreases |keys|
  {
    hide Admits;
    if keys == [] || Refuses(limits, history, keys[0], now) {
      m := 0;
    } else {
      var head, rest := keys[0], keys[1..];
      assert forall i :: 0 <= i < |rest| ==> rest[i] == keys[i + 1];
      var next := Recorded(limits, history, head, now);
      var k := DecideMeaning(limits, rest, next, now);
      m := k + 1;
      assert Decide(limits, keys, history, now) == Decide(limits, rest, next, now);
      hide Decide, Refuses, FirstRefusal, Decided, Recorded;
      RefusalOneMore(limits, keys, history, now, k);
      DecidedOneMore(limits, keys, history, now, k, Decide(limits, rest, next, now));
    }
  }

  /** The history after a bucket that does not refuse. */
  function Recorded(limits: Limits, history: Buckets, key: BucketKey, now: real): Buckets {
    if LimitOf(key) in limits then history[key := Bucket(history, key) + [now]] else history
  }

  lemma RecordedElsewhere(limits: Limits, history: Buckets, head: BucketKey, key: BucketKey, now: real)
    ensures Bucket(Recorded(limits, history, head, now), key) ==
            if key == head && LimitOf(key) in limits then Bucket(history, key) + [now] else Bucket(history, key)
    ensures key != head ==>
              Refuses(limits, Recorded(limits, history, head, now), key, now) == Refuses(limits, history, key, now)
  {}

  lemma RestKeys(keys: seq<BucketKey>, k: nat)
    requires keys != [] && k < |keys|
    requires forall i, j :: 0 <= i < j < |keys| ==> keys[i] != keys[j]
    ensures forall i :: 0 <= i < |keys| - 1 ==> keys[1..][i] == keys[i + 1] && keys[i + 1] != keys[0]
    ensures forall key :: key in keys[..k + 1] <==> key == keys[0] || key in keys[1..][..k]
    ensures keys[0] !in keys[1..][..k]
  {
    assert keys[..k + 1] == [keys[0]] + keys[1..][..k];
  }

  lemma RefusalOneMore(limits: Limits, keys: seq<BucketKey>, history: Buckets, now: real, k: nat)
    requires keys != [] && !Refuses(limits, history, keys[0], now) && k < |keys|
    requires forall i, j :: 0 <= i < j < |keys| ==> keys[i] != keys[j]
    requires FirstRefusal(limits, keys[1..], Recorded(limits, history, keys[0], now), now, k)
    ensures FirstRefusal(limits, keys, history, now, k + 1)
  {
    RestKeys(keys, k);
    forall key { RecordedElsewhere(limits, history, keys[0], key, now); }
    hide Refuses, Recorded;
    forall i | 0 < i <= k ensures !Refuses(limits, history, keys[i], now) {
      assert keys[1..][i - 1] == keys[i];
    }
    if k + 1 < |keys| {
      assert keys[1..][k] == keys[k + 1];
    }
  }

  lemma DecidedOneMore(limits: Limits, keys: seq<BucketKey>, history: Buckets, now: real, k: nat, d: Decision)
    requires keys != [] && k < |keys|
    requires forall i, j :: 0 <= i < j < |keys| ==> keys[i] != keys[j]
    requires Decided(limits, keys[1..], Recorded(limits, history, keys[0], now), now, k, d)
    ensures Decided(limits, keys, history, now, k + 1, d)
  {
    RestKeys(keys, k);
    forall key { RecordedElsewhere(limits, history, keys[0], key, now); }
    hide Refuses, Recorded, Bucket, LimitOf;
  }

  lemma DistinctKeys(request: Request)
    ensures forall i, j :: 0 <= i < j < |KeysOf(request)| ==> KeysOf(request)[i] != KeysOf(request)[j]
  {}

  /** A request is accepted exactly when its route, its consumer and its tenant each have no limit or
      room in both windows, counted over the full history. */
  lemma AcceptedIff(limits: Limits, request: Request, history: Buckets, now: real)
    ensures Decide(limits, KeysOf(request), history, now).accepted <==>
            forall target | target in {Route(request.routeId), Consumer(request.consumer), Tenant} ::
              LimitKey(target, request.scope) in limits ==>
                var limit := limits[LimitKey(target, request.scope)];
                var times := Bucket(history, BucketKey(target, request.apiId, request.scope));
                && CountAfter(times, now - 1.0) < limit.perSecond + limit.burst
                && CountAfter(times, now - 60.0) < limit.perMinute
    ensures Decide(limits, KeysOf(request), history, now).accepted <==>
            forall key :: key in KeysOf(request) ==> !Refuses(limits, history, key, now)
  {
    DistinctKeys(request);
    var keys := KeysOf(request);
    var m := DecideMeaning(limits, keys, history, now);
    assert m < |keys| ==> keys[m] in keys;
    var targets := {Route(request.routeId), Consumer(request.consumer), Tenant};
    forall target ensures BucketKey(target, request.apiId, request.scope) in keys <==> target in targets {}
    assert forall key :: key in keys ==> key == BucketKey(key.target, request.apiId, request.scope);
    hide Decide, KeysOf;
  }

  /** What one request records, bucket by bucket: a limited bucket gains an entry exactly when it and
      those before it do not refuse, the route being first, then the consumer, then the tenant. */
  lemma RecordsOf(limits: Limits, request: Request, history: Buckets, now: real)
    ensures var after := Decide(limits, KeysOf(request), history, now).history;
            var route := BucketKey(Route(request.routeId), request.apiId, request.scope);
            var consumer := BucketKey(Consumer(request.consumer), request.apiId, request.scope);
            var tenant := BucketKey(Tenant, request.apiId, request.scope);
            var first := !Refuses(limits, history, route, now);
            var second := first && !Refuses(limits, history, consumer, now);
            var third := second && !Refuses(limits, history, tenant, now);
            && Bucket(after, route) ==
               Bucket(history, route) + (if LimitOf(route) in limits && first then [now] else [])
            && Bucket(after, consumer) ==
               Bucket(history, consumer) + (if LimitOf(consumer) in limits && second then [now] else [])
            && Bucket(after, tenant) ==
               Bucket(history, tenant) + (if LimitOf(tenant) in limits && third then [now] else [])
            && forall key :: key !in {route, consumer, tenant} ==> Bucket(after, key) == Bucket(history, key)
  {
    DistinctKeys(request);
    var keys := KeysOf(request);
    var m := DecideMeaning(limits, keys, history, now);
    hide Decide, Refuses, Bucket, LimitOf;
    assert keys[..0] == [] && keys[..1] == [keys[0]] && keys[..2] == [keys[0], keys[1]] && keys[..3] == keys;
  }

  /** A rejected request leaves no record exactly when no limited bucket comes before the first
      one that refuses. */
  lemma RejectedTracelessIff(limits: Limits, request: Request, history: Buckets, now: real) returns (m: nat)
    requires !Decide(limits, KeysOf(request), history, now).accepted
    ensures m < |KeysOf(request)| && FirstRefusal(limits, KeysOf(request), history, now, m)
    ensures var after := Decide(limits, KeysOf(request), history, now).history;
            (forall key :: Bucket(after, key) == Bucket(history, key)) <==>
            (forall i :: 0 <= i < m ==> LimitOf(KeysOf(request)[i]) !in limits)
  {
    DistinctKeys(request);
    var keys := KeysOf(request);
    m := DecideMeaning(limits, keys, history, now);
    var d := Decide(limits, keys, history, now);
    hide Decide, Refuses, KeysOf, Bucket;
    forall i | 0 <= i < m && LimitOf(keys[i]) in limits ensures Bucket(d.history, keys[i]) != Bucket(history, keys[i]) {
      assert keys[..m][i] == keys[i];
    }
  }

  /** Under valid limits nothing refuses a request whose buckets are still empty. */
  lemma FirstAccepted(limits: Limits, request: Request, history: Buckets, now: real)
    requires forall key :: key in limits ==> ValidLimit(limits[key])
    requires forall key :: key in KeysOf(request) ==> Bucket(history, key) == []
    ensures Decide(limits, KeysOf(request), history, now).accepted
  {
    AcceptedIff(limits, request, history, now);
    hide Decide, KeysOf;
  }

  /** Valid limits, the same smallest one for a route and a consumer. */
  function SmallLimits(request: Request): Limits {
    map[LimitKey(Route(request.routeId), request.scope) := Limit(1, 1, 1),
        LimitKey(Consumer(request.consumer), request.scope) := Limit(1, 1, 1)]
  }

  /** A consumer's second request in one moment is refused by the consumer's limit, but it still
      counts against its own route. */
  lemma RejectedLeavesRecord(first: Request, second: Request, now: real)
    requires first.consumer == second.consumer && first.apiId == second.apiId && first.scope == second.scope
    requires first.routeId != second.routeId
    ensures forall key :: key in SmallLimits(second) ==> ValidLimit(SmallLimits(second)[key])
    ensures var limits := SmallLimits(second);
            var one := Decide(limits, KeysOf(first), map[], now);
            var two := Decide(limits, KeysOf(second), one.history, now);
            && one.accepted && !two.accepted
            && Bucket(one.history, KeysOf(second)[0]) == [] && Bucket(two.history, KeysOf(second)[0]) == [now]
  {
    var limits := SmallLimits(second);
    FirstAccepted(limits, first, map[], now);
    DistinctKeys(first);
    DistinctKeys(second);
    var m := DecideMeaning(limits, KeysOf(first), map[], now);
    var one := Decide(limits, KeysOf(first), map[], now);
    ConsumerRecorded(first, second, one, now);
    var k := DecideMeaning(limits, KeysOf(second), one.history, now);
    hide Decide;
    ConsumerRefuses(second, one.history, now);
    assert k == 1 && KeysOf(second)[..1] == [KeysOf(second)[0]];
  }

  lemma ConsumerRecorded(first: Request, second: Request, one: Decision, now: real)
    requires first.consumer == second.consumer && first.apiId == second.apiId && first.scope == second.scope
    requires first.routeId != second.routeId
    requires Decided(SmallLimits(second), KeysOf(first), map[], now, |KeysOf(first)|, one)
    ensures Bucket(one.history, KeysOf(second)[0]) == [] && Bucket(one.history, KeysOf(second)[1]) == [now]
  {
    var keys := KeysOf(first);
    assert keys[..|keys|] == keys && keys[1] == KeysOf(second)[1] && keys[1] in keys;
  }

  lemma ConsumerRefuses(request: Request, history: Buckets, now: real)
    requires Bucket(history, KeysOf(request)[0]) == [] && Bucket(history, KeysOf(request)[1]) == [now]
    ensures !Refuses(SmallLimits(request), history, KeysOf(request)[0], now)
    ensures Refuses(SmallLimits(request), history, KeysOf(request)[1], now)
  {
    assert CountAfter([now], now - 60.0) == 1 by { assert [now][..0] == []; }
  }

  ghost predicate Tracks(buckets: Buckets, history: Buckets, clock: real) {
    forall key :: Purged(Bucket(buckets, key), Bucket(history, key), clock)
  }

  /** Every limited bucket keeps its pace over its whole history. */
  ghost predicate WithinLimits(limits: Limits, history: Buckets) {
    forall key :: LimitOf(key) in limits ==> KeepsPace(limits[LimitOf(key)], Bucket(history, key))
  }

  ghost predicate KeepsPace(limit: Limit, times: seq<real>) {
    Paced(times, 60.0, limit.perMinute) && Paced(times, 1.0, limit.perSecond + limit.burst)
  }

  lemma RecordOne(limits: Limits, history: Buckets, key: BucketKey, now: real)
    requires WithinLimits(limits, history) && LimitOf(key) in limits
    requires Admits(limits[LimitOf(key)], Bucket(history, key), now)
    ensures WithinLimits(limits, history[key := Bucket(history, key) + [now]])
  {
    var limit := limits[LimitOf(key)];
    assert KeepsPace(limit, Bucket(history, key));
    PacedAppend(Bucket(history, key), 60.0, limit.perMinute, now);
    PacedAppend(Bucket(history, key), 1.0, limit.perSecond + limit.burst, now);
    var after := history[key := Bucket(history, key) + [now]];
    forall k | LimitOf(k) in limits ensures KeepsPace(limits[LimitOf(k)], Bucket(after, k)) {
      if k != key { assert Bucket(after, k) == Bucket(history, k); }
    }
  }

  lemma {:induction false} DecideWithinLimits(limits: Limits, keys: seq<BucketKey>, history: Buckets, now: real)
    requires WithinLimits(limits, history)
    ensures WithinLimits(limits, Decide(limits, keys, history, now).history)
    decreases |keys|
  {
    hide WithinLimits, Admits;
    if keys != [] {
      var key := keys[0];
      if LimitOf(key) !in limits {
        DecideWithinLimits(limits, keys[1..], history, now);
      } else if Admits(limits[LimitOf(key)], Bucket(history, key), now) {
        RecordOne(limits, history, key, now);
        DecideWithinLimits(limits, keys[1..], history[key := Bucket(history, key) + [now]], now);
      }
    }
  }

  /** The check of one bucket: the purged deque stands for the history. */
  method CheckBucket(limit: Limit, bucket: seq<real>, ghost history: seq<real>, now: real)
    returns (ok: bool, r: seq<real>)
    requires Purged(bucket, history, now)
    ensures ok == Admits(limit, history, now)
    ensures Purged(r, if ok then history + [now] else history, now)
  {
    hide Purged;
    r := Purge(bucket, history, now);
    PurgedCounts(r, history, now);
    var perSecond := CountAfter(r, now - 1.0);
    if perSecond >= limit.perSecond + limit.burst || |r| >= limit.perMinute {
      ok := false;
    } else {
      PurgedAppend(r, history, now);
      ok, r := true, r + [now];
    }
  }

  lemma TracksLater(buckets: Buckets, history: Buckets, clock: real, now: real)
    requires Tracks(buckets, history, clock) && clock <= now
    ensures Tracks(buckets, history, now)
  {
    forall key ensures Purged(Bucket(buckets, key), Bucket(history, key), now) {
      PurgedLater(Bucket(buckets, key), Bucket(history, key), clock, now);
    }
  }

  lemma TracksUpdate(buckets: Buckets, history: Buckets, now: real, key: BucketKey, bucket: seq<real>, times: seq<real>)
    requires Tracks(buckets, history, now) && Purged(bucket, times, now)
    ensures Tracks(buckets[key := bucket], history[key := times], now)
  {
    hide Purged;
    var after, record := buckets[key := bucket], history[key := times];
    forall k ensures Purged(Bucket(after, k), Bucket(record, k), now) {
      if k != key { assert Purged(Bucket(buckets, k), Bucket(history, k), now); }
    }
  }

  lemma TracksSame(buckets: Buckets, history: Buckets, now: real, key: BucketKey, bucket: seq<real>)
    requires Tracks(buckets, history, now) && Purged(bucket, Bucket(history, key), now)
    ensures Tracks(buckets[key := bucket], history, now)
  {
    hide Purged;
    forall k ensures Purged(Bucket(buckets[key := bucket], k), Bucket(history, k), now) {
      assert Purged(Bucket(buckets, k), Bucket(history, k), now);
    }
  }

  lemma TracksAt(buckets: Buckets, history: Buckets, now: real, key: BucketKey)
    requires Tracks(buckets, history, now)
    ensures Purged(Bucket(buckets, key), Bucket(history, key), now)
  {}

  // ---------- admitted requests ----------

  datatype Admission = Admission(request: Request, time: real)

  /** Requests share a bucket by api and scope and, short of the tenant's, by route or consumer. */
  predicate CountedIn(request: Request, key: BucketKey) {
    && request.apiId == key.apiId && request.scope == key.scope
    && match key.target
       case Route(id) => request.routeId == id
       case Consumer(id) => request.consumer == id
       case Tenant => true
  }

  /** When the admitted requests counted in this bucket came. */
  function AdmittedTimes(admitted: seq<Admission>, key: BucketKey): seq<real> {
    if admitted == [] then []
    else
      var n := |admitted| - 1;
      var rest := AdmittedTimes(admitted[..n], key);
      if CountedIn(admitted[n].request, key) then rest + [admitted[n].time] else rest
  }

  /** Recorded entries dominate admitted requests in every window of every limited bucket. */
  ghost predicate Dominates(limits: Limits, history: Buckets, admitted: seq<Admission>) {
    forall key, lo, hi :: LimitOf(key) in limits ==>
      CountIn(AdmittedTimes(admitted, key), lo, hi) <= CountIn(Bucket(history, key), lo, hi)
  }

  /** What a decision does to one bucket: nothing, or one more entry; exactly one when accepted. */
  lemma {:induction false} DecideRecords(limits: Limits, keys: seq<BucketKey>, history: Buckets, now: real,
                                         key: BucketKey)
    requires forall i, j :: 0 <= i < j < |keys| ==> keys[i] != keys[j]
    ensures var d := Decide(limits, keys, history, now);
            && (Bucket(d.history, key) == Bucket(history, key) ||
                Bucket(d.history, key) == Bucket(history, key) + [now])
            && (key !in keys ==> Bucket(d.history, key) == Bucket(history, key))
            && (d.accepted && key in keys && LimitOf(key) in limits ==>
                Bucket(d.history, key) == Bucket(history, key) + [now])
    decreases |keys|
  {
    hide Admits;
    if keys != [] {
      var head, rest := keys[0], keys[1..];
      assert keys == [head] + rest;
      assert forall i :: 0 <= i < |rest| ==> rest[i] == keys[i + 1];
      if LimitOf(head) !in limits {
        DecideRecords(limits, rest, history, now, key);
      } else if Admits(limits[LimitOf(head)], Bucket(history, head), now) {
        DecideRecords(limits, rest, history[head := Bucket(history, head) + [now]], now, key);
      }
    }
  }

  lemma CountInAppend(times: seq<real>, x: real, lo: real, hi: real)
    ensures CountIn(times + [x], lo, hi) == CountIn(times, lo, hi) + if lo < x <= hi then 1 else 0
  {
    assert (times + [x])[..|times|] == times;
  }

  lemma OwnBuckets(request: Request, key: BucketKey)
    ensures CountedIn(request, key) <==> key in KeysOf(request)
  {}

  lemma AdmittedNext(admitted: seq<Admission>, request: Request, now: real, key: BucketKey, lo: real, hi: real)
    ensures CountIn(AdmittedTimes(admitted + [Admission(request, now)], key), lo, hi) ==
            CountIn(AdmittedTimes(admitted, key), lo, hi) + if CountedIn(request, key) && lo < now <= hi then 1 else 0
  {
    assert (admitted + [Admission(request, now)])[..|admitted|] == admitted;
    CountInAppend(AdmittedTimes(admitted, key), now, lo, hi);
    hide CountedIn, CountIn;
  }

  lemma DominatesNext(limits: Limits, history: Buckets, admitted: seq<Admission>, request: Request, now: real)
    requires Dominates(limits, history, admitted)
    ensures var d := Decide(limits, KeysOf(request), history, now);
            Dominates(limits, d.history, if d.accepted then admitted + [Admission(request, now)] else admitted)
  {
    var d := Decide(limits, KeysOf(request), history, now);
    var after := if d.accepted then admitted + [Admission(request, now)] else admitted;
    DistinctKeys(request);
    hide Decide, KeysOf, CountedIn, Bucket, AdmittedTimes, CountIn, LimitOf;
    forall key, lo, hi | LimitOf(key) in limits
      ensures CountIn(AdmittedTimes(after, key), lo, hi) <= CountIn(Bucket(d.history, key), lo, hi)
    {
      DecideRecords(limits, KeysOf(request), history, now, key);
      OwnBuckets(request, key);
      CountInAppend(Bucket(history, key), now, lo, hi);
      AdmittedNext(admitted, request, now, key, lo, hi);
      assert CountIn(AdmittedTimes(admitted, key), lo, hi) <= CountIn(Bucket(history, key), lo, hi);
    }
  }

  /** The loop over the targets of one request. */
  method CheckAll(limits: Limits, keys: seq<BucketKey>, buckets: Buckets, ghost history: Buckets, now: real)
    returns (accepted: bool, buckets': Buckets)
    requires Tracks(buckets, history, now)
    ensures var d := Decide(limits, keys, history, now);
            accepted == d.accepted && Tracks(buckets', d.history, now)
  {
    hide Tracks, Decide, Admits, Purged;
    buckets' := buckets;
    ghost var record := history;
    assert keys[0..] == keys;
    for k := 0 to |keys|
      invariant Tracks(buckets', record, now)
      invariant Decide(limits, keys[k..], record, now) == Decide(limits, keys, history, now)
    {
      var key := keys[k];
      DecideStep(limits, keys, k, record, now);
      if LimitOf(key) !in limits {
        continue;
      }
      TracksAt(buckets', record, now, key);
      var ok, bucket := CheckBucket(limits[LimitOf(key)], Bucket(buckets', key), Bucket(record, key), now);
      if !ok {
        TracksSame(buckets', record, now, key, bucket);
        buckets' := buckets'[key := bucket];
        return false, buckets';
      }
      TracksUpdate(buckets', record, now, key, bucket, Bucket(record, key) + [now]);
      buckets' := buckets'[key := bucket];
      record := record[key := Bucket(record, key) + [now]];
    }
    DecideEnd(limits, keys, record, now);
    accepted := true;
  }

  class Limiter {
    const limits: Limits
    var requests: Buckets
    /** everything ever recorded, never purged */
    ghost var history: Buckets
    ghost var admitted: seq<Admission>
    ghost var clock: real

    ghost predicate Valid()
      reads this
    {
      && Tracks(requests, history, clock)
      && WithinLimits(limits, history)
      && Dominates(limits, history, admitted)
    }

    constructor (limits: Limits, ghost start: real)
      ensures Valid() && this.limits == limits && history == map[] && admitted == [] && clock == start
    {
      this.limits := limits;
      requests, history, admitted, clock := map[], map[], [], start;
    }

    /** Time must not run backwards; the deques decide and record as the full history would. */
    method EnforceRateLimit(request: Request, now: real) returns (accepted: bool)
      requires Valid() && clock <= now
      modifies this`requests, this`history, this`admitted, this`clock
      ensures Valid() && clock == now
      ensures Decision(accepted, history) == Decide(limits, KeysOf(request), old(history), now)
      ensures accepted <==>
              forall target | target in {Route(request.routeId), Consumer(request.consumer), Tenant} ::
                LimitKey(target, request.scope) in limits ==>
                  var limit := limits[LimitKey(target, request.scope)];
                  var times := Bucket(old(history), BucketKey(target, request.apiId, request.scope));
                  && CountAfter(times, now - 1.0) < limit.perSecond + limit.burst
                  && CountAfter(times, now - 60.0) < limit.perMinute
      ensures accepted ==>
                forall target | target in {Route(request.routeId), Consumer(request.consumer), Tenant} ::
                  LimitKey(target, request.scope) in limits ==>
                    var key := BucketKey(target, request.apiId, request.scope);
                    Bucket(history, key) == Bucket(old(history), key) + [now]
      ensures exists m :: FirstRefusal(limits, KeysOf(request), old(history), now, m)
                && Decided(limits, KeysOf(request), old(history), now, m, Decision(accepted, history))
      ensures admitted == if accepted then old(admitted) + [Admission(request, now)] else old(admitted)
    {
      hide Tracks, WithinLimits, Dominates, Decide, Admits, Purged, Refuses, FirstRefusal, Decided;
      var keys := KeysOf(request);
      AcceptedIff(limits, request, history, now);
      RecordsOf(limits, request, history, now);
      DistinctKeys(request);
      ghost var m := DecideMeaning(limits, keys, history, now);
      DecideWithinLimits(limits, keys, history, now);
      DominatesNext(limits, history, admitted, request, now);
      TracksLater(requests, history, clock, now);
      clock := now;
      accepted, requests := CheckAll(limits, keys, requests, history, now);
      history := Decide(limits, keys, history, now).history;
      if accepted {
        admitted := admitted + [Admission(request, now)];
      }
    }
  }

  lemma DecideStep(limits: Limits, keys: seq<BucketKey>, k: nat, history: Buckets, now: real)
    requires k < |keys|
    ensures var key := keys[k];
            Decide(limits, keys[k..], history, now) ==
            if LimitOf(key) !in limits then Decide(limits, keys[k + 1..], history, now)
            else if !Admits(limits[LimitOf(key)], Bucket(history, key), now) then Decision(false, history)
            else Decide(limits, keys[k + 1..], history[key := Bucket(history, key) + [now]], now)
  {
    assert keys[k..][0] == keys[k] && keys[k..][1..] == keys[k + 1..];
  }

  lemma DecideEnd(limits: Limits, keys: seq<BucketKey>, history: Buckets, now: real)
    ensures Decide(limits, keys[|keys|..], history, now) == Decision(true, history)
  {}

  /** In any reachable state, every 60-second window of a limited bucket holds at most the
      per-minute limit and every 1-second window at most the per-second limit plus the burst,
      recorded entries and admitted requests alike. */
  lemma WindowsBounded(limits: Limits, buckets: Buckets, history: Buckets, admitted: seq<Admission>, clock: real,
                       key: BucketKey, t: real)
    requires Tracks(buckets, history, clock) && WithinLimits(limits, history) && Dominates(limits, history, admitted)
    requires LimitOf(key) in limits
    ensures var limit := limits[LimitOf(key)];
            && CountIn(AdmittedTimes(admitted, key), t - 60.0, t) <= CountIn(Bucket(history, key), t - 60.0, t)
                 <= limit.perMinute
            && CountIn(AdmittedTimes(admitted, key), t - 1.0, t) <= CountIn(Bucket(history, key), t - 1.0, t)
                 <= limit.perSecond + limit.burst
  {
    TracksAt(buckets, history, clock, key);
    var limit, times := limits[LimitOf(key)], Bucket(history, key);
    assert KeepsPace(limit, times);
    EveryWindow(times, 60.0, limit.perMinute, t);
    EveryWindow(times, 1.0, limit.perSecond + limit.burst, t);
  }

  /** How many requests of a kind were admitted in the window (lo, hi]. */
  ghost function Within(admitted: seq<Admission>, own: Request -> bool, lo: real, hi: real): nat {
    if admitted == [] then 0
    else
      var last := admitted[|admitted| - 1];
      Within(admitted[..|admitted| - 1], own, lo, hi) + if own(last.request) && lo < last.time <= hi then 1 else 0
  }

  lemma {:induction false} AdmittedCount(admitted: seq<Admission>, key: BucketKey, own: Request -> bool, lo: real,
                                         hi: real)
    requires forall q :: own(q) <==> CountedIn(q, key)
    ensures CountIn(AdmittedTimes(admitted, key), lo, hi) == Within(admitted, own, lo, hi)
  {
    if admitted != [] {
      var n := |admitted| - 1;
      AdmittedCount(admitted[..n], key, own, lo, hi);
      CountInAppend(AdmittedTimes(admitted[..n], key), admitted[n].time, lo, hi);
      hide CountedIn, CountIn;
    }
  }

  /** So no tenant, consumer or route has more requests to one api of a scope admitted within a minute
      than its per-minute limit, nor within a second than its per-second limit and burst. */
  lemma AdmittedBounded(limits: Limits, buckets: Buckets, history: Buckets, admitted: seq<Admission>, clock: real,
                        apiId: string, scope: Scope, id: string, t: real)
    requires Tracks(buckets, history, clock) && WithinLimits(limits, history) && Dominates(limits, history, admitted)
    ensures LimitKey(Tenant, scope) in limits ==>
              var limit := limits[LimitKey(Tenant, scope)];
              var own := (q: Request) => q.apiId == apiId && q.scope == scope;
              && Within(admitted, own, t - 60.0, t) <= limit.perMinute
              && Within(admitted, own, t - 1.0, t) <= limit.perSecond + limit.burst
    ensures LimitKey(Consumer(id), scope) in limits ==>
              var limit := limits[LimitKey(Consumer(id), scope)];
              var own := (q: Request) => q.consumer == id && q.apiId == apiId && q.scope == scope;
              && Within(admitted, own, t - 60.0, t) <= limit.perMinute
              && Within(admitted, own, t - 1.0, t) <= limit.perSecond + limit.burst
    ensures LimitKey(Route(id), scope) in limits ==>
              var limit := limits[LimitKey(Route(id), scope)];
              var own := (q: Request) => q.routeId == id && q.apiId == apiId && q.scope == scope;
              && Within(admitted, own, t - 60.0, t) <= limit.perMinute
              && Within(admitted, own, t - 1.0, t) <= limit.perSecond + limit.burst
  {
    hide Tracks, WithinLimits, Dominates, Within;
    if LimitKey(Tenant, scope) in limits {
      KindBounded(limits, buckets, history, admitted, clock, BucketKey(Tenant, apiId, scope),
                  (q: Request) => q.apiId == apiId && q.scope == scope, t);
    }
    if LimitKey(Consumer(id), scope) in limits {
      KindBounded(limits, buckets, history, admitted, clock, BucketKey(Consumer(id), apiId, scope),
                  (q: Request) => q.consumer == id && q.apiId == apiId && q.scope == scope, t);
    }
    if LimitKey(Route(id), scope) in limits {
      KindBounded(limits, buckets, history, admitted, clock, BucketKey(Route(id), apiId, scope),
                  (q: Request) => q.routeId == id && q.apiId == apiId && q.scope == scope, t);
    }
  }

  lemma KindBounded(limits: Limits, buckets: Buckets, history: Buckets, admitted: seq<Admission>, clock: real,
                    key: BucketKey, own: Request -> bool, t: real)
    requires Tracks(buckets, history, clock) && WithinLimits(limits, history) && Dominates(limits, history, admitted)
    requires LimitOf(key) in limits && forall q :: own(q) <==> CountedIn(q, key)
    ensures Within(admitted, own, t - 60.0, t) <= limits[LimitOf(key)].perMinute
    ensures Within(admitted, own, t - 1.0, t) <= limits[LimitOf(key)].perSecond + limits[LimitOf(key)].burst
  {
    hide Tracks, WithinLimits, Dominates, Within, CountIn, AdmittedTimes, CountedIn, LimitOf;
    WindowsBounded(limits, buckets, history, admitted, clock, key, t);
    AdmittedCount(admitted, key, own, t - 60.0, t);
    AdmittedCount(admitted, key, own, t - 1.0, t);
  }
}
