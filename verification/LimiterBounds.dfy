/** What the rate limiter promises in numbers: requests per window, and memory. */
module LimiterBounds {
  import opened RateLimiting
  import opened LimiterRuns

  // ----- Requests per window -----

  /** How many checks of `ip` with a time in `[s, t]` the run lets through. */
  function AllowedBetween(rate: nat, evs: seq<Event>, ip: IpAddr, s: nat, t: nat): nat {
    if evs == [] then 0
    else
      var i := |evs| - 1;
      AllowedBetween(rate, evs[..i], ip, s, t)
      + (if Allowed(rate, evs, i) && evs[i].ip == ip && s <= evs[i].at <= t then 1 else 0)
  }

  lemma AllowedBetweenLonger(rate: nat, evs: seq<Event>, e: Event, ip: IpAddr, s: nat, t: nat)
    ensures AllowedBetween(rate, evs + [e], ip, s, t)
            == AllowedBetween(rate, evs, ip, s, t)
               + (if ProbesFor(e, ip) && s <= e.at <= t && Grants(rate, Probed(Run(rate, evs), e), e.at) then 1 else 0)
  {
    var longer := evs + [e];
    assert longer[..|evs|] == evs;
  }

  /** The ideal bucket of `ip` after the run, full if it was never checked. */
  function BucketOf(rate: nat, evs: seq<Event>, ip: IpAddr, now: nat): Bucket {
    IdealBucket(rate, IdealRun(rate, evs), ip, now)
  }

  /** One event further: what it adds to the count, and to the address's bucket. */
  lemma BetweenStep(rate: nat, evs: seq<Event>, ip: IpAddr, s: nat, t: nat)
    requires Ordered(evs) && evs != []
    ensures var e, prior := evs[|evs| - 1], evs[..|evs| - 1];
      var b := BucketOf(rate, prior, ip, e.at);
      && AllowedBetween(rate, evs, ip, s, t)
         == AllowedBetween(rate, prior, ip, s, t)
            + (if ProbesFor(e, ip) && s <= e.at <= t && Grants(rate, b, e.at) then 1 else 0)
      && (ProbesFor(e, ip) ==>
            ip in IdealRun(rate, evs) && IdealRun(rate, evs)[ip] == Consumed(rate, b, e.at))
      && (!ProbesFor(e, ip) ==> (ip in IdealRun(rate, evs) <==> ip in IdealRun(rate, prior)))
      && (!ProbesFor(e, ip) && ip in IdealRun(rate, prior) ==> IdealRun(rate, evs)[ip] == b)
  {
    EvictionUnobservable(rate, evs, |evs| - 1);
  }

  /** What `[s, b.lastRefill]` supplies covers the requests let through in it and the tokens left. */
  ghost predicate Covered(rate: nat, b: Bucket, s: nat, spent: nat) {
    if s <= b.lastRefill
    then NANOS * spent + b.tokens <= Capacity(rate) + rate * (b.lastRefill - s)
    else spent == 0
  }

  lemma CoveredStep(rate: nat, b: Bucket, s: nat, now: nat, spent: nat)
    requires s <= now && b.lastRefill <= now && Covered(rate, b, s, spent)
    ensures Covered(rate, Consumed(rate, b, now), s, spent + (if Grants(rate, b, now) then 1 else 0))
  {
    if s <= b.lastRefill {
      var before, gap := b.lastRefill - s, now - b.lastRefill;
      assert rate * (before + gap) == rate * before + gap * rate;
      assert now - s == before + gap;
    }
  }

  lemma FreshCovered(rate: nat, s: nat, now: nat)
    ensures Covered(rate, FullBucket(rate, now), s, 0)
  {
    if s <= now {
      assert rate * (now - s) >= 0;
    }
  }

  lemma {:induction false} LastRefillPast(rate: nat, evs: seq<Event>, ip: IpAddr)
    requires Ordered(evs) && ip in IdealRun(rate, evs)
    ensures evs != [] && IdealRun(rate, evs)[ip].lastRefill <= evs[|evs| - 1].at
  {
    var k := RefilledByCheck(rate, evs, ip);
  }

  lemma {:induction false} RunCovered(rate: nat, evs: seq<Event>, ip: IpAddr, s: nat, t: nat, now: nat)
    requires Ordered(evs)
    requires forall k :: 0 <= k < |evs| ==> evs[k].at <= t
    ensures Covered(rate, BucketOf(rate, evs, ip, now), s, AllowedBetween(rate, evs, ip, s, t))
    ensures ip !in IdealRun(rate, evs) ==> AllowedBetween(rate, evs, ip, s, t) == 0
  {
    if evs == [] {
      FreshCovered(rate, s, now);
    } else {
      var e, prior := evs[|evs| - 1], evs[..|evs| - 1];
      var at := if ProbesFor(e, ip) then e.at else now;
      RunCovered(rate, prior, ip, s, t, at);
      BetweenStep(rate, evs, ip, s, t);
      if ProbesFor(e, ip) {
        var b, spent := BucketOf(rate, prior, ip, at), AllowedBetween(rate, prior, ip, s, t);
        if ip in IdealRun(rate, prior) {
          LastRefillPast(rate, prior, ip);
        }
        if s <= e.at {
          CoveredStep(rate, b, s, e.at, spent);
        }
      }
    }
  }

  lemma CoveredBound(rate: nat, b: Bucket, s: nat, t: nat, spent: nat)
    requires s <= t && b.lastRefill <= t && Covered(rate, b, s, spent)
    ensures NANOS * spent <= rate * (NANOS + (t - s))
  {
    assert rate * (NANOS + (t - s)) == Capacity(rate) + rate * (t - s);
    if s <= b.lastRefill {
      assert rate * (b.lastRefill - s) <= rate * (t - s);
    }
  }

  /** In every run and every window, at most `rate * (1 + length)` requests of one address pass. */
  lemma {:induction false} WindowBound(rate: nat, evs: seq<Event>, ip: IpAddr, s: nat, t: nat)
    requires Ordered(evs) && s <= t
    ensures NANOS * AllowedBetween(rate, evs, ip, s, t) <= rate * (NANOS + (t - s))
  {
    if evs != [] && evs[|evs| - 1].at > t {
      BetweenStep(rate, evs, ip, s, t);
      WindowBound(rate, evs[..|evs| - 1], ip, s, t);
    } else {
      RunCovered(rate, evs, ip, s, t, s);
      if ip in IdealRun(rate, evs) {
        LastRefillPast(rate, evs, ip);
      }
      CoveredBound(rate, BucketOf(rate, evs, ip, s), s, t, AllowedBetween(rate, evs, ip, s, t));
    }
  }

  /** Conversely, a check at least `1 / rate` seconds after its address's earlier ones passes. */
  lemma SpacedCheckPasses(rate: nat, evs: seq<Event>, i: nat)
    requires rate >= 1 && Ordered(evs) && i < |evs| && Probes(evs[i])
    requires forall k :: 0 <= k < i && ProbesFor(evs[k], evs[i].ip) ==>
               rate * (evs[i].at - evs[k].at) >= NANOS
    ensures Allowed(rate, evs, i)
  {
    EvictionUnobservable(rate, evs, i);
    var ip := evs[i].ip;
    var ideal := IdealRun(rate, evs[..i]);
    if ip in ideal {
      var k := RefilledByCheck(rate, evs[..i], ip);
      assert evs[..i][k] == evs[k];
      RefilledInTime(rate, ideal[ip], evs[i].at);
    } else {
      RefilledInTime(rate, FullBucket(rate, evs[i].at), evs[i].at);
    }
  }

  /** A bucket that has had time for one token, or is full, has one. */
  lemma RefilledInTime(rate: nat, b: Bucket, now: nat)
    requires rate >= 1 && b.lastRefill <= now
    requires rate * (now - b.lastRefill) >= NANOS || b.tokens == Capacity(rate)
    ensures Grants(rate, b, now)
  {
    var gap := now - b.lastRefill;
    assert gap * rate == rate * gap >= 0;
    assert Capacity(rate) >= NANOS;
  }

  /** The bucket of an address was last refilled by one of its checks. */
  lemma {:induction false} RefilledByCheck(rate: nat, evs: seq<Event>, ip: IpAddr) returns (k: nat)
    requires ip in IdealRun(rate, evs)
    ensures k < |evs| && ProbesFor(evs[k], ip)
    ensures IdealRun(rate, evs)[ip].lastRefill == evs[k].at
  {
    k := |evs| - 1;
    if !ProbesFor(evs[k], ip) {
      k := RefilledByCheck(rate, evs[..k], ip);
    }
  }

  // ----- Memory -----

  /** The event counts a call, and so may reach the count at which a check sweeps. */
  predicate Counts(e: Event) {
    e.Check? || e.Count?
  }

  /** Checks that have counted themselves and not yet entered the map. */
  function Pending(evs: seq<Event>): int {
    if evs == [] then 0
    else
      var e := evs[|evs| - 1];
      Pending(evs[..|evs| - 1]) + (if e.Count? then 1 else if e.Enter? then -1 else 0)
  }

  /** Event `i` sweeps the whole map: in the background, or as the check that reaches the count. */
  predicate SweepsAll(rate: nat, evs: seq<Event>, i: nat)
    requires i < |evs|
  {
    evs[i].Sweep? || (evs[i].Check? && Triggers(Run(rate, evs[..i]).checkCount))
  }

  /** Addresses checked before event `i` and within the TTL of it. */
  function RecentIps(evs: seq<Event>, i: nat): set<IpAddr>
    requires i < |evs|
  {
    set k | 0 <= k < i && Probes(evs[k]) && evs[i].at <= evs[k].at + STALE_BUCKET_TTL :: evs[k].ip
  }

  function ProbesFrom(evs: seq<Event>, i: nat): nat
    requires i <= |evs|
  {
    if i == |evs| then 0
    else ProbesFrom(evs[..|evs| - 1], i) + (if Probes(evs[|evs| - 1]) then 1 else 0)
  }

  function CallsFrom(evs: seq<Event>, i: nat): nat
    requires i <= |evs|
  {
    if i == |evs| then 0
    else CallsFrom(evs[..|evs| - 1], i) + (if Counts(evs[|evs| - 1]) then 1 else 0)
  }

  /** What entered the map since `i` was counted since `i`, or was pending then; what is pending now did not enter. */
  lemma {:induction false} ProbesAreCalls(evs: seq<Event>, i: nat)
    requires i <= |evs|
    ensures ProbesFrom(evs, i) + Pending(evs) == CallsFrom(evs, i) + Pending(evs[..i])
  {
    if i < |evs| {
      var prior := evs[..|evs| - 1];
      assert prior[..i] == evs[..i];
      ProbesAreCalls(prior, i);
    } else {
      assert evs[..i] == evs;
    }
  }

  function IpsFrom(evs: seq<Event>, i: nat): set<IpAddr>
    requires i <= |evs|
  {
    if i == |evs| then {}
    else
      var e := evs[|evs| - 1];
      IpsFrom(evs[..|evs| - 1], i) + (if Probes(e) then {e.ip} else {})
  }

  lemma {:induction false} IpsFromSize(evs: seq<Event>, i: nat)
    requires i <= |evs|
    ensures |IpsFrom(evs, i)| <= ProbesFrom(evs, i)
  {
    if i < |evs| {
      IpsFromSize(evs[..|evs| - 1], i);
    }
  }

  lemma {:induction false} KeptIsIdeal(rate: nat, evs: seq<Event>, ip: IpAddr)
    requires Ordered(evs) && ip in Run(rate, evs).buckets
    ensures ip in IdealRun(rate, evs) && Run(rate, evs).buckets[ip] == IdealRun(rate, evs)[ip]
  {
    RunForgets(rate, evs, if evs == [] then 0 else evs[|evs| - 1].at);
  }

  /** After a full sweep only recent addresses are left, plus that of the check that swept. */
  lemma SweepLeavesRecent(rate: nat, evs: seq<Event>, i: nat)
    requires Ordered(evs) && i < |evs| && SweepsAll(rate, evs, i)
    ensures Run(rate, evs[..i + 1]).buckets.Keys <= RecentIps(evs, i) + IpsFrom(evs[..i + 1], i)
  {
    var prior := evs[..i];
    assert evs[..i + 1][..i] == prior;
    forall ip | ip in Swept(Run(rate, prior).buckets, evs[i].at) ensures ip in RecentIps(evs, i) {
      KeptIsIdeal(rate, prior, ip);
      var k := RefilledByCheck(rate, prior, ip);
      assert evs[k] == prior[k];
    }
  }

  /** An address checked within the TTL is still in the map, whatever sweeps there were. */
  lemma RecentIsKept(rate: nat, evs: seq<Event>, now: nat, k: nat)
    requires Ordered(evs) && k < |evs| && evs[|evs| - 1].at <= now
    requires Probes(evs[k]) && now <= evs[k].at + STALE_BUCKET_TTL
    ensures evs[k].ip in Run(rate, evs).buckets
  {
    RunForgets(rate, evs, now);
    RefilledSince(rate, evs, k);
  }

  lemma {:induction false} RefilledSince(rate: nat, evs: seq<Event>, k: nat)
    requires Ordered(evs) && k < |evs| && Probes(evs[k])
    ensures evs[k].ip in IdealRun(rate, evs) && IdealRun(rate, evs)[evs[k].ip].lastRefill >= evs[k].at
  {
    if k < |evs| - 1 {
      RefilledSince(rate, evs[..|evs| - 1], k);
    }
  }

  /**
   * What a full sweep leaves, exactly: the addresses checked within 300 seconds before it,
   * and that of the check that swept.
   */
  lemma SweepLeavesExactly(rate: nat, evs: seq<Event>, i: nat, ip: IpAddr)
    requires Ordered(evs) && i < |evs| && SweepsAll(rate, evs, i)
    ensures ip in Run(rate, evs[..i + 1]).buckets <==>
            || (evs[i].Check? && evs[i].ip == ip)
            || exists k :: 0 <= k < i && ProbesFor(evs[k], ip) && evs[i].at - evs[k].at <= 300_000_000_000
  {
    var upTo, prior := evs[..i + 1], evs[..i];
    assert upTo[..i] == prior;
    SweepLeavesRecent(rate, evs, i);
    if ip in Run(rate, upTo).buckets && ip in RecentIps(evs, i) {
      var k :| 0 <= k < i && Probes(evs[k]) && evs[i].at <= evs[k].at + STALE_BUCKET_TTL && evs[k].ip == ip;
      assert ProbesFor(evs[k], ip);
    }
    forall k | 0 <= k < i && ProbesFor(evs[k], ip) && evs[i].at - evs[k].at <= 300_000_000_000
      ensures ip in Run(rate, upTo).buckets
    {
      assert upTo[k] == evs[k];
      RecentIsKept(rate, upTo, evs[i].at, k);
    }
  }

  lemma KeysGrow(l: Limiter, e: Event)
    ensures After(l, e).buckets.Keys <= l.buckets.Keys + (if Probes(e) then {e.ip} else {})
  {
  }

  lemma RecentIpsPrefix(evs: seq<Event>, i: nat)
    requires i < |evs| - 1
    ensures RecentIps(evs[..|evs| - 1], i) == RecentIps(evs, i)
  {
  }

  lemma {:induction false} KeysSinceSweep(rate: nat, evs: seq<Event>, i: nat)
    requires Ordered(evs) && i < |evs| && SweepsAll(rate, evs, i)
    ensures Run(rate, evs).buckets.Keys <= RecentIps(evs, i) + IpsFrom(evs, i)
  {
    if i == |evs| - 1 {
      assert evs[..i + 1] == evs;
      SweepLeavesRecent(rate, evs, i);
    } else {
      var prior := evs[..|evs| - 1];
      assert prior[..i] == evs[..i];
      KeysSinceSweep(rate, prior, i);
      RecentIpsPrefix(evs, i);
      KeysGrow(Run(rate, prior), evs[|evs| - 1]);
    }
  }

  lemma {:induction false} KeysFromStart(rate: nat, evs: seq<Event>)
    ensures Run(rate, evs).buckets.Keys <= IpsFrom(evs, 0)
  {
    if evs != [] {
      KeysFromStart(rate, evs[..|evs| - 1]);
    }
  }

  /** Event `i` is an interrupted check that reached the count: its sweep is no event of its own. */
  predicate Defers(rate: nat, evs: seq<Event>, i: nat)
    requires i < |evs|
  {
    evs[i].Count? && Triggers(Run(rate, evs[..i]).checkCount)
  }

  /** How many did so since event `i`. */
  function DeferredFrom(rate: nat, evs: seq<Event>, i: nat): nat
    requires i <= |evs|
  {
    if i == |evs| then 0
    else DeferredFrom(rate, evs[..|evs| - 1], i) + (if Defers(rate, evs, |evs| - 1) then 1 else 0)
  }

  /** How far the counter is past its last multiple of the sweep period. */
  function Phase(count: nat): nat {
    if count == 0 then 0 else (count - 1) % EVICT_EVERY_N_CHECKS + 1
  }

  /** The same once the counter may have wrapped: 2^64 leaves 1,616 modulo 10,000. */
  function WrappedPhase(count: nat): nat {
    if count <= EVICT_EVERY_N_CHECKS then 1_616 + count else Phase(count)
  }

  lemma PhaseStep(count: nat)
    ensures !Triggers(count) ==> Phase(count + 1) == Phase(count) + 1
    ensures Triggers(count) ==> Phase(count + 1) == 1
    ensures Phase(count) <= EVICT_EVERY_N_CHECKS
  {
  }

  /** The calls a counter at this value can stand for since a full sweep, with so many deferred. */
  function Reach(count: nat, wrapped: bool, deferred: nat): nat {
    if wrapped then WrappedPhase(count) + 11_616 * deferred
    else Phase(count) + EVICT_EVERY_N_CHECKS * deferred
  }

  lemma ReachStep(count: nat, wrapped: bool, deferred: nat)
    requires count < U64_RANGE && (!wrapped ==> count + 1 < U64_RANGE)
    ensures var next := (count + 1) % U64_RANGE;
      && 1 <= Reach(next, wrapped, deferred)
      && (!Triggers(count) ==> Reach(count, wrapped, deferred) + 1 <= Reach(next, wrapped, deferred))
      && (Triggers(count) ==> Reach(count, wrapped, deferred) + 1 <= Reach(next, wrapped, deferred + 1))
  {
    PhaseStep(count);
  }

  lemma ReachBound(count: nat, wrapped: bool, deferred: nat)
    ensures Reach(count, wrapped, deferred) <= Slack(wrapped) * (1 + deferred)
  {
    PhaseStep(count);
  }

  lemma WrapsOnce(n: nat)
    ensures (n % U64_RANGE + 1) % U64_RANGE == (n + 1) % U64_RANGE
  {
  }

  lemma {:induction false} CounterIs(rate: nat, evs: seq<Event>)
    ensures Run(rate, evs).checkCount == CallsFrom(evs, 0) % U64_RANGE
  {
    if evs != [] {
      CounterIs(rate, evs[..|evs| - 1]);
      WrapsOnce(CallsFrom(evs[..|evs| - 1], 0));
    }
  }

  /** A check sweeps exactly if the calls before it, counted modulo 2^64, are a positive multiple of 10,000. */
  lemma CheckSweepsIff(rate: nat, evs: seq<Event>, i: nat)
    requires i < |evs| && evs[i].Check?
    ensures SweepsAll(rate, evs, i) <==>
            var calls := CallsFrom(evs[..i], 0) % 0x1_0000_0000_0000_0000; calls > 0 && calls % 10_000 == 0
  {
    CounterIs(rate, evs[..i]);
  }

  /** The counter has gone round. */
  predicate Wrapped(evs: seq<Event>) {
    CallsFrom(evs, 0) >= U64_RANGE
  }

  /** One sweep period, or 11,616 calls once the counter has wrapped. */
  function Slack(wrapped: bool): nat {
    if wrapped then 11_616 else EVICT_EVERY_N_CHECKS
  }

  /** From event `i` on there is no full sweep but `i` itself, or `i` is the start and there is none at all. */
  predicate LastSweep(rate: nat, evs: seq<Event>, i: nat) {
    && i < |evs| && (SweepsAll(rate, evs, i) || i == 0)
    && forall k :: i < k < |evs| ==> !SweepsAll(rate, evs, k)
  }

  lemma LastSweepEarlier(rate: nat, evs: seq<Event>, i: nat)
    requires LastSweep(rate, evs, i) && i < |evs| - 1
    ensures LastSweep(rate, evs[..|evs| - 1], i)
  {
    var prior := evs[..|evs| - 1];
    assert prior[..i] == evs[..i];
    forall k | i < k < |prior| ensures !SweepsAll(rate, prior, k) {
      assert prior[..k] == evs[..k] && prior[k] == evs[k];
      assert !SweepsAll(rate, evs, k);
    }
  }

  lemma CountStep(l: Limiter, e: Event)
    ensures After(l, e).checkCount == if Counts(e) then (l.checkCount + 1) % U64_RANGE else l.checkCount
  {
  }

  lemma NotYetWrapped(rate: nat, evs: seq<Event>, wrapped: bool)
    requires evs != [] && Counts(evs[|evs| - 1]) && (Wrapped(evs) ==> wrapped)
    ensures var count := Run(rate, evs[..|evs| - 1]).checkCount;
      count < U64_RANGE && (!wrapped ==> count + 1 < U64_RANGE)
  {
    CounterIs(rate, evs[..|evs| - 1]);
  }

  lemma CallsStep(rate: nat, evs: seq<Event>, i: nat, wrapped: bool)
    requires LastSweep(rate, evs, i) && i < |evs| - 1 && (Wrapped(evs) ==> wrapped)
    requires var prior := evs[..|evs| - 1];
      CallsFrom(prior, i) <= Reach(Run(rate, prior).checkCount, wrapped, DeferredFrom(rate, prior, i))
    ensures CallsFrom(evs, i) <= Reach(Run(rate, evs).checkCount, wrapped, DeferredFrom(rate, evs, i))
  {
    var n := |evs| - 1;
    var l := Run(rate, evs[..n]);
    CountStep(l, evs[n]);
    assert !SweepsAll(rate, evs, n);
    if Counts(evs[n]) {
      NotYetWrapped(rate, evs, wrapped);
      ReachStep(l.checkCount, wrapped, DeferredFrom(rate, evs[..n], i));
    }
  }

  /** Since the last full sweep the counter has passed the sweep count only in interrupted checks. */
  lemma {:induction false} CallsBounded(rate: nat, evs: seq<Event>, i: nat, wrapped: bool)
    requires LastSweep(rate, evs, i) && (Wrapped(evs) ==> wrapped)
    ensures CallsFrom(evs, i) <= Reach(Run(rate, evs).checkCount, wrapped, DeferredFrom(rate, evs, i))
  {
    var n := |evs| - 1;
    if i < n {
      LastSweepEarlier(rate, evs, i);
      CallsBounded(rate, evs[..n], i, wrapped);
      CallsStep(rate, evs, i, wrapped);
    } else if Counts(evs[n]) {
      CountStep(Run(rate, evs[..n]), evs[n]);
      NotYetWrapped(rate, evs, wrapped);
      ReachStep(Run(rate, evs[..n]).checkCount, wrapped, 0);
      assert CallsFrom(evs[..n], n) == 0;
    } else {
      assert CallsFrom(evs[..n], n) == 0;
    }
  }

  /** What may have entered since the last full sweep: so many periods of calls, and what was pending then. */
  function Entered(rate: nat, evs: seq<Event>, i: nat): int
    requires i <= |evs|
  {
    Slack(Wrapped(evs)) * (1 + DeferredFrom(rate, evs, i)) + Pending(evs[..i]) - Pending(evs)
  }

  lemma EnteredBound(rate: nat, evs: seq<Event>, i: nat)
    requires LastSweep(rate, evs, i)
    ensures |IpsFrom(evs, i)| <= Entered(rate, evs, i)
  {
    IpsFromSize(evs, i);
    ProbesAreCalls(evs, i);
    CallsBounded(rate, evs, i, Wrapped(evs));
    ReachBound(Run(rate, evs).checkCount, Wrapped(evs), DeferredFrom(rate, evs, i));
  }

  /**
   * Memory, in every run: never more buckets than addresses recent at the last full sweep,
   * plus one period of calls and one more for each interrupted check that reached the sweep
   * count since, plus the checks that were then between counter and map less those that are now.
   */
  lemma MemoryBound(rate: nat, evs: seq<Event>, i: nat)
    requires Ordered(evs) && i < |evs| && SweepsAll(rate, evs, i) && LastSweep(rate, evs, i)
    ensures |Run(rate, evs).buckets| <= |RecentIps(evs, i)| + Entered(rate, evs, i)
  {
    KeysSinceSweep(rate, evs, i);
    EnteredBound(rate, evs, i);
    Within(Run(rate, evs).buckets, RecentIps(evs, i) + IpsFrom(evs, i));
  }

  /** Before any full sweep there are no recent addresses to add; and with none deferred the counter cannot have wrapped. */
  lemma MemoryBoundBeforeSweeps(rate: nat, evs: seq<Event>)
    requires forall k :: 0 <= k < |evs| ==> !SweepsAll(rate, evs, k)
    ensures |Run(rate, evs).buckets| <= Entered(rate, evs, 0)
    ensures DeferredFrom(rate, evs, 0) == 0 ==> Entered(rate, evs, 0) == EVICT_EVERY_N_CHECKS - Pending(evs)
  {
    if evs != [] {
      assert LastSweep(rate, evs, 0);
      BucketsEntered(rate, evs);
      if DeferredFrom(rate, evs, 0) == 0 {
        NoWrapUndeferred(rate, evs);
      }
    }
  }

  lemma BucketsEntered(rate: nat, evs: seq<Event>)
    requires LastSweep(rate, evs, 0)
    ensures |Run(rate, evs).buckets| <= Entered(rate, evs, 0)
  {
    KeysFromStart(rate, evs);
    EnteredBound(rate, evs, 0);
    Within(Run(rate, evs).buckets, IpsFrom(evs, 0));
  }

  lemma NoWrapUndeferred(rate: nat, evs: seq<Event>)
    requires LastSweep(rate, evs, 0) && DeferredFrom(rate, evs, 0) == 0
    ensures !Wrapped(evs)
  {
    CallsBounded(rate, evs, 0, true);
    ReachBound(Run(rate, evs).checkCount, true, 0);
  }

  predicate Uninterrupted(evs: seq<Event>) {
    forall k :: 0 <= k < |evs| ==> !evs[k].Count? && !evs[k].Enter?
  }

  lemma {:induction false} NothingDeferred(rate: nat, evs: seq<Event>, i: nat)
    requires i <= |evs| && Uninterrupted(evs)
    ensures Pending(evs) == 0 && DeferredFrom(rate, evs, i) == 0
  {
    if evs != [] {
      var prior := evs[..|evs| - 1];
      NothingDeferred(rate, prior, if i <= |prior| then i else 0);
    }
  }

  /** While no check is interrupted the extra terms vanish: one period of calls is all. */
  lemma UninterruptedEntered(rate: nat, evs: seq<Event>, i: nat)
    requires i <= |evs| && Uninterrupted(evs)
    ensures Entered(rate, evs, i) == Slack(Wrapped(evs))
  {
    NothingDeferred(rate, evs, i);
    NothingDeferred(rate, evs[..i], i);
  }

  lemma {:induction false} Smaller<T>(small: set<T>, large: set<T>)
    requires small <= large
    ensures |small| <= |large|
  {
    if small != {} {
      var x :| x in small;
      Smaller(small - {x}, large - {x});
    }
  }

  lemma Within<K, V>(m: map<K, V>, keys: set<K>)
    requires m.Keys <= keys
    ensures |m| <= |keys|
  {
    Smaller(m.Keys, keys);
  }
}
