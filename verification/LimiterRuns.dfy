/**
 * Whole runs of the rate limiter: any interleaving of checks from any addresses
 * with sweeps of the whole map or of parts of it, on a nondecreasing clock.
 */
module LimiterRuns {
  import opened RateLimiting

  /**
   * A check happens in one step, or is interrupted: it counts itself, sweeps shard by shard
   * if it must, and only later enters the map. `DashMap::retain` locks one shard at a time,
   * so every sweep may also be interrupted between shards, with the cutoff read before.
   */
  datatype Event =
    | Check(ip: IpAddr, at: nat)
    | Count(at: nat)
    | Enter(ip: IpAddr, createdAt: nat, at: nat)
    | Sweep(at: nat)
    | SweepShard(readAt: nat, at: nat, shard: set<IpAddr>)

  predicate Ordered(evs: seq<Event>) {
    && (forall i, j :: 0 <= i < j < |evs| ==> evs[i].at <= evs[j].at)
    && (forall i :: 0 <= i < |evs| && evs[i].SweepShard? ==> evs[i].readAt <= evs[i].at)
  }

  /** The event asks for a token of some address's bucket. */
  predicate Probes(e: Event) {
    e.Check? || e.Enter?
  }

  predicate ProbesFor(e: Event, ip: IpAddr) {
    Probes(e) && e.ip == ip
  }

  function ShardSwept(buckets: map<IpAddr, Bucket>, now: nat, shard: set<IpAddr>): map<IpAddr, Bucket> {
    map ip | ip in buckets && (ip in shard ==> ip in Swept(buckets, now)) :: buckets[ip]
  }

  /** The map in which a probe looks its bucket up. */
  function Looked(l: Limiter, e: Event): map<IpAddr, Bucket>
    requires Probes(e)
  {
    if e.Check? then BucketsSeen(l, e.at) else l.buckets
  }

  /** The bucket a probe finds, or creates full. */
  function Probed(l: Limiter, e: Event): Bucket
    requires Probes(e)
  {
    var buckets := Looked(l, e);
    if e.ip in buckets then buckets[e.ip]
    else FullBucket(l.rate, if e.Check? then e.at else e.createdAt)
  }

  function After(l: Limiter, e: Event): Limiter {
    match e
    case Check(ip, at) => Checked(l, ip, at)
    case Count(at) => l.(checkCount := (l.checkCount + 1) % U64_RANGE)
    case Enter(ip, createdAt, at) => l.(buckets := l.buckets[ip := Consumed(l.rate, Probed(l, e), at)])
    case Sweep(at) => l.(buckets := Swept(l.buckets, at))
    case SweepShard(readAt, at, shard) => l.(buckets := ShardSwept(l.buckets, readAt, shard))
  }

  function Run(rate: nat, evs: seq<Event>): (l: Limiter)
    ensures l.rate == rate
  {
    if evs == [] then NewLimiter(rate)
    else After(Run(rate, evs[..|evs| - 1]), evs[|evs| - 1])
  }

  // ----- Sweeping in parts -----

  function AfterAll(l: Limiter, evs: seq<Event>): Limiter {
    if evs == [] then l else After(AfterAll(l, evs[..|evs| - 1]), evs[|evs| - 1])
  }

  function ShardsOf(evs: seq<Event>): set<IpAddr>
    requires forall e <- evs :: e.SweepShard?
  {
    if evs == [] then {} else ShardsOf(evs[..|evs| - 1]) + evs[|evs| - 1].shard
  }

  /** Sweeping shard after shard with one cutoff is sweeping all their addresses at once. */
  lemma {:induction false} ShardsAddUp(l: Limiter, readAt: nat, evs: seq<Event>)
    requires forall e <- evs :: e.SweepShard? && e.readAt == readAt
    ensures AfterAll(l, evs) == l.(buckets := ShardSwept(l.buckets, readAt, ShardsOf(evs)))
  {
    if evs == [] {
      assert ShardSwept(l.buckets, readAt, {}) == l.buckets;
    } else {
      ShardsAddUp(l, readAt, evs[..|evs| - 1]);
      TwoShards(l.buckets, readAt, ShardsOf(evs[..|evs| - 1]), evs[|evs| - 1].shard);
    }
  }

  lemma TwoShards(buckets: map<IpAddr, Bucket>, readAt: nat, a: set<IpAddr>, b: set<IpAddr>)
    ensures ShardSwept(ShardSwept(buckets, readAt, a), readAt, b) == ShardSwept(buckets, readAt, a + b)
  {
    var first := ShardSwept(buckets, readAt, a);
    forall ip ensures ip in ShardSwept(first, readAt, b) <==> ip in ShardSwept(buckets, readAt, a + b) {
      assert ip in first ==> (ip in Swept(first, readAt) <==> ip in Swept(buckets, readAt));
    }
  }

  /** So a sweep interrupted between shards removes what the whole sweep does, once it has seen them all. */
  lemma ShardsMakeASweep(l: Limiter, readAt: nat, evs: seq<Event>)
    requires forall e <- evs :: e.SweepShard? && e.readAt == readAt
    requires l.buckets.Keys <= ShardsOf(evs)
    ensures AfterAll(l, evs) == After(l, Sweep(readAt))
  {
    ShardsAddUp(l, readAt, evs);
    assert ShardSwept(l.buckets, readAt, ShardsOf(evs)) == Swept(l.buckets, readAt);
  }

  /** Event `i` of the run asks for a token, and gets it. */
  predicate Allowed(rate: nat, evs: seq<Event>, i: nat)
    requires i < |evs|
  {
    Probes(evs[i]) && Grants(rate, Probed(Run(rate, evs[..i]), evs[i]), evs[i].at)
  }

  // ----- The limiter that never forgets -----

  function IdealBucket(rate: nat, ideal: map<IpAddr, Bucket>, ip: IpAddr, now: nat): Bucket {
    if ip in ideal then ideal[ip] else FullBucket(rate, now)
  }

  /** The same checks against a map from which nothing is ever removed. */
  function IdealRun(rate: nat, evs: seq<Event>): map<IpAddr, Bucket> {
    if evs == [] then map[]
    else
      var ideal := IdealRun(rate, evs[..|evs| - 1]);
      var e := evs[|evs| - 1];
      if Probes(e) then ideal[e.ip := Consumed(rate, IdealBucket(rate, ideal, e.ip, e.at), e.at)]
      else ideal
  }

  predicate IdealAllowed(rate: nat, evs: seq<Event>, i: nat)
    requires i < |evs|
  {
    Probes(evs[i])
    && Grants(rate, IdealBucket(rate, IdealRun(rate, evs[..i]), evs[i].ip, evs[i].at), evs[i].at)
  }

  /** `kept` is `ideal` less some buckets that have been idle for longer than the TTL by `now`. */
  ghost predicate Forgets(kept: map<IpAddr, Bucket>, ideal: map<IpAddr, Bucket>, now: nat) {
    && (forall ip <- kept :: ip in ideal && kept[ip] == ideal[ip])
    && (forall ip <- ideal :: ip in kept || ideal[ip].lastRefill + STALE_BUCKET_TTL < now)
  }

  /** A bucket idle for the TTL is as good as a new one. */
  lemma IdleBucketIsFull(rate: nat, b: Bucket, now: nat)
    requires b.lastRefill + STALE_BUCKET_TTL <= now
    ensures Refilled(rate, b, now) == Capacity(rate)
  {
    var elapsed := now - b.lastRefill;
    assert elapsed * rate >= NANOS * rate;
  }

  lemma SweepForgets(kept: map<IpAddr, Bucket>, ideal: map<IpAddr, Bucket>, readAt: nat, now: nat)
    requires Forgets(kept, ideal, now) && readAt <= now
    ensures Forgets(Swept(kept, readAt), ideal, now)
    ensures forall shard :: Forgets(ShardSwept(kept, readAt, shard), ideal, now)
  {
  }

  /** A new bucket is full whenever it is first used. */
  lemma NewBucketIsFull(rate: nat, createdAt: nat, now: nat)
    ensures Refilled(rate, FullBucket(rate, createdAt), now) == Capacity(rate)
  {
    assert Elapsed(createdAt, now) * rate >= 0;
  }

  lemma ProbeAgrees(l: Limiter, ideal: map<IpAddr, Bucket>, e: Event)
    requires Probes(e) && Forgets(l.buckets, ideal, e.at)
    ensures Forgets(Looked(l, e), ideal, e.at)
    ensures Refilled(l.rate, Probed(l, e), e.at) == Refilled(l.rate, IdealBucket(l.rate, ideal, e.ip, e.at), e.at)
  {
    SweepForgets(l.buckets, ideal, e.at, e.at);
    if e.ip !in Looked(l, e) {
      NewBucketIsFull(l.rate, if e.Check? then e.at else e.createdAt, e.at);
      NewBucketIsFull(l.rate, e.at, e.at);
      if e.ip in ideal {
        IdleBucketIsFull(l.rate, ideal[e.ip], e.at);
      }
    }
  }

  lemma ProbeForgets(l: Limiter, ideal: map<IpAddr, Bucket>, e: Event)
    requires Probes(e) && Forgets(l.buckets, ideal, e.at)
    ensures Forgets(After(l, e).buckets, ideal[e.ip := Consumed(l.rate, IdealBucket(l.rate, ideal, e.ip, e.at), e.at)], e.at)
  {
    ProbeAgrees(l, ideal, e);
    assert After(l, e).buckets == Looked(l, e)[e.ip := Consumed(l.rate, Probed(l, e), e.at)];
  }

  /** The real map is, at every moment of every run, the ideal one less idle buckets. */
  lemma {:induction false} RunForgets(rate: nat, evs: seq<Event>, now: nat)
    requires Ordered(evs)
    requires evs != [] ==> evs[|evs| - 1].at <= now
    ensures Forgets(Run(rate, evs).buckets, IdealRun(rate, evs), now)
  {
    if evs != [] {
      var e := evs[|evs| - 1];
      var prior := evs[..|evs| - 1];
      RunForgets(rate, prior, e.at);
      if Probes(e) {
        ProbeForgets(Run(rate, prior), IdealRun(rate, prior), e);
      } else {
        SweepForgets(Run(rate, prior).buckets, IdealRun(rate, prior), if e.SweepShard? then e.readAt else e.at, e.at);
      }
    }
  }

  /** Eviction is unobservable: every answer is the one the ideal limiter gives. */
  lemma EvictionUnobservable(rate: nat, evs: seq<Event>, i: nat)
    requires Ordered(evs) && i < |evs|
    ensures Allowed(rate, evs, i) == IdealAllowed(rate, evs, i)
  {
    if Probes(evs[i]) {
      RunForgets(rate, evs[..i], evs[i].at);
      ProbeAgrees(Run(rate, evs[..i]), IdealRun(rate, evs[..i]), evs[i]);
    }
  }

  // ----- One address on its own -----

  /** The times at which `ip` was checked. */
  function Times(ip: IpAddr, evs: seq<Event>): seq<nat> {
    if evs == [] then []
    else
      var e := evs[|evs| - 1];
      Times(ip, evs[..|evs| - 1]) + (if ProbesFor(e, ip) then [e.at] else [])
  }

  /** The bucket left by checks at the times `ts` alone. */
  function Solo(rate: nat, ts: seq<nat>): Bucket
    requires ts != []
  {
    var t := ts[|ts| - 1];
    if |ts| == 1 then Consumed(rate, FullBucket(rate, t), t)
    else Consumed(rate, Solo(rate, ts[..|ts| - 1]), t)
  }

  /** The token level that the last of the checks `ts` finds, before it consumes. */
  function Level(rate: nat, ts: seq<nat>): nat
    requires ts != []
  {
    var t := ts[|ts| - 1];
    if |ts| == 1 then Capacity(rate) else Refilled(rate, Solo(rate, ts[..|ts| - 1]), t)
  }

  lemma {:induction false} IdealIsSolo(rate: nat, evs: seq<Event>, ip: IpAddr)
    ensures ip in IdealRun(rate, evs) <==> Times(ip, evs) != []
    ensures ip in IdealRun(rate, evs) ==> IdealRun(rate, evs)[ip] == Solo(rate, Times(ip, evs))
  {
    if evs != [] {
      var prior := evs[..|evs| - 1];
      IdealIsSolo(rate, prior, ip);
      var e := evs[|evs| - 1];
      if ProbesFor(e, ip) {
        assert Times(ip, evs)[..|Times(ip, evs)| - 1] == Times(ip, prior);
      } else {
        assert Times(ip, evs) == Times(ip, prior);
      }
    }
  }

  /** Non-interference: an answer depends on that address's own check times only. */
  lemma AnswerFromOwnTimes(rate: nat, evs: seq<Event>, i: nat)
    requires Ordered(evs) && i < |evs| && Probes(evs[i])
    ensures Times(evs[i].ip, evs[..i + 1]) != []
    ensures Allowed(rate, evs, i) <==> Level(rate, Times(evs[i].ip, evs[..i + 1])) >= NANOS
  {
    EvictionUnobservable(rate, evs, i);
    IdealIsSolo(rate, evs[..i], evs[i].ip);
    assert evs[..i + 1][..i] == evs[..i];
    var ts := Times(evs[i].ip, evs[..i + 1]);
    assert ts[..|ts| - 1] == Times(evs[i].ip, evs[..i]);
  }

  /** Two runs in which an address was checked at the same times answer it alike. */
  lemma NonInterference(rate: nat, evs: seq<Event>, i: nat, evs': seq<Event>, i': nat)
    requires Ordered(evs) && i < |evs| && Probes(evs[i])
    requires Ordered(evs') && i' < |evs'| && ProbesFor(evs'[i'], evs[i].ip)
    requires Times(evs[i].ip, evs[..i + 1]) == Times(evs[i].ip, evs'[..i' + 1])
    ensures Allowed(rate, evs, i) == Allowed(rate, evs', i')
  {
    AnswerFromOwnTimes(rate, evs, i);
    AnswerFromOwnTimes(rate, evs', i');
  }

  // ----- Closed form -----

  predicate Nondecreasing(ts: seq<nat>) {
    forall i, j :: 0 <= i < j < |ts| ==> ts[i] <= ts[j]
  }

  predicate Passed(rate: nat, ts: seq<nat>, k: nat)
    requires k < |ts|
  {
    Level(rate, ts[..k + 1]) >= NANOS
  }

  /** How many of the checks `j .. n` are let through. */
  function Granted(rate: nat, ts: seq<nat>, j: nat, n: nat): nat
    requires j <= n <= |ts|
  {
    if j == n then 0
    else Granted(rate, ts, j, n - 1) + (if Passed(rate, ts, n - 1) then 1 else 0)
  }

  /** The units that flow in between the checks `j` and `n`. */
  function Inflow(rate: nat, ts: seq<nat>, j: nat, n: nat): nat
    requires Nondecreasing(ts) && j <= n < |ts|
  {
    rate * (ts[n] - ts[j])
  }

  /** What a full bucket at check `j` would hold at check `n`, were there no cap in between. */
  function Headroom(rate: nat, ts: seq<nat>, j: nat, n: nat): int
    requires Nondecreasing(ts) && j <= n < |ts|
  {
    Capacity(rate) + Inflow(rate, ts, j, n) - NANOS * Granted(rate, ts, j, n)
  }

  function Cost(rate: nat, ts: seq<nat>, n: nat): nat
    requires n < |ts|
  {
    if Passed(rate, ts, n) then NANOS else 0
  }

  lemma LevelStep(rate: nat, ts: seq<nat>, n: nat)
    requires Nondecreasing(ts) && n + 1 < |ts|
    ensures var carried := Level(rate, ts[..n + 1]) - Cost(rate, ts, n) + Inflow(rate, ts, n, n + 1);
      Level(rate, ts[..n + 2]) == if carried <= Capacity(rate) then carried else Capacity(rate)
  {
    assert ts[..n + 2][..n + 1] == ts[..n + 1];
    var b := Solo(rate, ts[..n + 1]);
    assert b.lastRefill == ts[n];
    assert Elapsed(ts[n], ts[n + 1]) * rate == Inflow(rate, ts, n, n + 1);
  }

  lemma HeadroomStep(rate: nat, ts: seq<nat>, j: nat, n: nat)
    requires Nondecreasing(ts) && j <= n && n + 1 < |ts|
    ensures Headroom(rate, ts, j, n + 1)
            == Headroom(rate, ts, j, n) - Cost(rate, ts, n) + Inflow(rate, ts, n, n + 1)
  {
    var first, second := ts[n] - ts[j], ts[n + 1] - ts[n];
    assert rate * (first + second) == rate * first + rate * second;
    assert ts[n + 1] - ts[j] == first + second;
  }

  lemma {:induction false} LevelBelowHeadroom(rate: nat, ts: seq<nat>, j: nat, n: nat)
    requires Nondecreasing(ts) && j <= n < |ts|
    ensures Level(rate, ts[..n + 1]) <= Headroom(rate, ts, j, n)
  {
    if j < n {
      LevelBelowHeadroom(rate, ts, j, n - 1);
      LevelStep(rate, ts, n - 1);
      HeadroomStep(rate, ts, j, n - 1);
    }
  }

  lemma {:induction false} LevelAttained(rate: nat, ts: seq<nat>, n: nat) returns (j: nat)
    requires Nondecreasing(ts) && n < |ts|
    ensures j <= n && Level(rate, ts[..n + 1]) == Headroom(rate, ts, j, n)
  {
    j := n;
    if n > 0 && Level(rate, ts[..n + 1]) < Capacity(rate) {
      j := LevelAttained(rate, ts, n - 1);
      LevelStep(rate, ts, n - 1);
      HeadroomStep(rate, ts, j, n - 1);
    }
  }

  /** Closed form: the level a check finds is the least headroom over all starting points. */
  lemma LevelIsLeastHeadroom(rate: nat, ts: seq<nat>, n: nat)
    requires Nondecreasing(ts) && n < |ts|
    ensures forall j :: 0 <= j <= n ==> Level(rate, ts[..n + 1]) <= Headroom(rate, ts, j, n)
    ensures exists j :: 0 <= j <= n && Level(rate, ts[..n + 1]) == Headroom(rate, ts, j, n)
  {
    forall j | 0 <= j <= n ensures Level(rate, ts[..n + 1]) <= Headroom(rate, ts, j, n) {
      LevelBelowHeadroom(rate, ts, j, n);
    }
    var j := LevelAttained(rate, ts, n);
  }

  /** The checks from `j` up to `n` leave the bucket's window room to let check `n` through too. */
  predicate HasRoom(rate: nat, ts: seq<nat>, j: nat, n: nat)
    requires Nondecreasing(ts) && j <= n < |ts|
  {
    NANOS * (Granted(rate, ts, j, n) + 1) <= rate * (NANOS + (ts[n] - ts[j]))
  }

  /** A check passes exactly when every window ending in it still has room for it. */
  lemma PassedIffEveryWindowHasRoom(rate: nat, ts: seq<nat>, n: nat)
    requires Nondecreasing(ts) && n < |ts|
    ensures Passed(rate, ts, n) <==>
            forall j :: 0 <= j <= n ==> HasRoom(rate, ts, j, n)
  {
    LevelIsLeastHeadroom(rate, ts, n);
    forall j | 0 <= j <= n
      ensures Headroom(rate, ts, j, n) >= NANOS <==> HasRoom(rate, ts, j, n)
    {
      assert rate * (NANOS + (ts[n] - ts[j])) == rate * NANOS + rate * (ts[n] - ts[j]);
    }
  }

  lemma {:induction false} TimesNondecreasing(evs: seq<Event>, ip: IpAddr)
    requires Ordered(evs)
    ensures Nondecreasing(Times(ip, evs))
    ensures Times(ip, evs) != [] ==> evs != [] && Times(ip, evs)[|Times(ip, evs)| - 1] <= evs[|evs| - 1].at
  {
    if evs != [] {
      TimesNondecreasing(evs[..|evs| - 1], ip);
    }
  }

  /**
   * The closed form, of the real limiter: in every run, with every sweep, a check is let
   * through exactly when every window of that address's checks ending in it has room.
   */
  lemma AllowedIffEveryWindowHasRoom(rate: nat, evs: seq<Event>, i: nat)
    requires Ordered(evs) && i < |evs| && Probes(evs[i])
    ensures var ts := Times(evs[i].ip, evs[..i + 1]);
      var n := |ts| - 1;
      && ts != [] && Nondecreasing(ts)
      && (Allowed(rate, evs, i) <==> forall j :: 0 <= j <= n ==> HasRoom(rate, ts, j, n))
  {
    var ts := Times(evs[i].ip, evs[..i + 1]);
    AnswerFromOwnTimes(rate, evs, i);
    TimesNondecreasing(evs[..i + 1], evs[i].ip);
    PassedIffEveryWindowHasRoom(rate, ts, |ts| - 1);
    assert ts[..|ts|] == ts;
  }

  /** The last of the checks `ts` finds some window without room for it. */
  ghost predicate OverLimit(rate: nat, ts: seq<nat>) {
    && ts != [] && Nondecreasing(ts)
    && var n := |ts| - 1;
    exists j :: 0 <= j <= n && !HasRoom(rate, ts, j, n)
  }

  lemma AllowedNext(rate: nat, evs: seq<Event>, ip: IpAddr, at: nat)
    ensures Allowed(rate, evs + [Check(ip, at)], |evs|) == Allows(Run(rate, evs), ip, at)
  {
    assert (evs + [Check(ip, at)])[..|evs|] == evs;
  }

  lemma TimesNext(evs: seq<Event>, ip: IpAddr, at: nat)
    ensures Times(ip, evs + [Check(ip, at)]) == Times(ip, evs) + [at]
  {
    assert (evs + [Check(ip, at)])[..|evs|] == evs;
  }

  /** The same of the check that comes next. */
  lemma NextCheckRefusedIff(rate: nat, evs: seq<Event>, ip: IpAddr, at: nat)
    requires Ordered(evs + [Check(ip, at)])
    ensures !Allows(Run(rate, evs), ip, at) <==> OverLimit(rate, Times(ip, evs) + [at])
  {
    var longer := evs + [Check(ip, at)];
    assert longer[..|evs| + 1] == longer;
    AllowedNext(rate, evs, ip, at);
    TimesNext(evs, ip, at);
    AllowedIffEveryWindowHasRoom(rate, longer, |evs|);
  }
}
