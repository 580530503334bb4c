/**
 * The per-IP token-bucket rate limiter.
 *
 * Time is a count of nanoseconds, and tokens are counted in units of one
 * billionth of a token, so that `elapsed * rate` is an exact number of units.
 */
module RateLimiting {

  /** Nanoseconds in a second, and token units in a token. */
  const NANOS: nat := 1_000_000_000
  const EVICT_EVERY_N_CHECKS: nat := 10_000
  const STALE_BUCKET_TTL: nat := 300 * NANOS
  /** The call counter is a `u64` and wraps here. */
  const U64_RANGE: nat := 0x1_0000_0000_0000_0000

  datatype IpAddr = V4(bits: nat) | V6(bits: nat)

  datatype Bucket = Bucket(tokens: nat, lastRefill: nat)

  datatype Limiter = Limiter(rate: nat, buckets: map<IpAddr, Bucket>, checkCount: nat)

  function Capacity(rate: nat): nat {
    rate * NANOS
  }

  function FullBucket(rate: nat, now: nat): Bucket {
    Bucket(Capacity(rate), now)
  }

  /** `Instant::duration_since`, which is zero for a clock that went backwards. */
  function Elapsed(since: nat, now: nat): nat {
    if since <= now then now - since else 0
  }

  /** The tokens in `b` at time `now`, before anything is consumed. */
  function Refilled(rate: nat, b: Bucket, now: nat): nat {
    var level := b.tokens + Elapsed(b.lastRefill, now) * rate;
    if level <= Capacity(rate) then level else Capacity(rate)
  }

  function Grants(rate: nat, b: Bucket, now: nat): bool {
    Refilled(rate, b, now) >= NANOS
  }

  function Consumed(rate: nat, b: Bucket, now: nat): Bucket {
    var level := Refilled(rate, b, now);
    Bucket(if level >= NANOS then level - NANOS else level, now)
  }

  function NewLimiter(rate: nat): Limiter {
    Limiter(rate, map[], 0)
  }

  /** `evict_stale`: nothing is removed while the clock is younger than the TTL. */
  function Swept(buckets: map<IpAddr, Bucket>, now: nat): map<IpAddr, Bucket> {
    if now < STALE_BUCKET_TTL then buckets
    else map ip | ip in buckets && buckets[ip].lastRefill >= now - STALE_BUCKET_TTL :: buckets[ip]
  }

  predicate Triggers(count: nat) {
    count > 0 && count % EVICT_EVERY_N_CHECKS == 0
  }

  /** What `check` finds in the map once its own sweep, if any, is over. */
  function BucketsSeen(l: Limiter, now: nat): map<IpAddr, Bucket> {
    if Triggers(l.checkCount) then Swept(l.buckets, now) else l.buckets
  }

  function BucketSeen(l: Limiter, ip: IpAddr, now: nat): Bucket {
    var buckets := BucketsSeen(l, now);
    if ip in buckets then buckets[ip] else FullBucket(l.rate, now)
  }

  predicate Allows(l: Limiter, ip: IpAddr, now: nat) {
    Grants(l.rate, BucketSeen(l, ip, now), now)
  }

  function Checked(l: Limiter, ip: IpAddr, now: nat): Limiter {
    Limiter(l.rate,
            BucketsSeen(l, now)[ip := Consumed(l.rate, BucketSeen(l, ip, now), now)],
            (l.checkCount + 1) % U64_RANGE)
  }

  // The three steps of `check`: count and perhaps sweep, enter, consume.

  function CountedCall(l: Limiter, now: nat): Limiter {
    Limiter(l.rate, BucketsSeen(l, now), (l.checkCount + 1) % U64_RANGE)
  }

  function Entered(l: Limiter, ip: IpAddr, now: nat): (r: Limiter)
    ensures ip in r.buckets
  {
    l.(buckets := l.buckets[ip := if ip in l.buckets then l.buckets[ip] else FullBucket(l.rate, now)])
  }

  function Spent(l: Limiter, ip: IpAddr, now: nat): Limiter
    requires ip in l.buckets
  {
    l.(buckets := l.buckets[ip := Consumed(l.rate, l.buckets[ip], now)])
  }

  lemma CheckedInSteps(l: Limiter, ip: IpAddr, now: nat)
    ensures var entered := Entered(CountedCall(l, now), ip, now);
      && entered.buckets[ip] == BucketSeen(l, ip, now)
      && Spent(entered, ip, now) == Checked(l, ip, now)
  {
    var entered := Entered(CountedCall(l, now), ip, now);
    assert Spent(entered, ip, now).buckets == Checked(l, ip, now).buckets;
  }

  /** One client's slot, updated in place. */
  class TokenBucket {
    var tokens: nat
    const capacity: nat
    var lastRefill: nat
    const rate: nat

    ghost predicate Valid() {
      capacity == Capacity(rate)
    }

    ghost function Value(): Bucket
      reads this
    {
      Bucket(tokens, lastRefill)
    }

    constructor (rateRps: nat, now: nat)
      ensures Valid() && rate == rateRps && Value() == FullBucket(rateRps, now)
    {
      var cap := rateRps * NANOS;
      tokens, capacity, lastRefill, rate := cap, cap, now, rateRps;
    }

    method TryConsume(now: nat) returns (ok: bool)
      requires Valid()
      modifies this
      ensures ok == Grants(rate, old(Value()), now)
      ensures Value() == Consumed(rate, old(Value()), now)
      ensures lastRefill == now
      ensures now <= old(lastRefill) && old(tokens) <= capacity ==>
                ok == (old(tokens) >= NANOS) && tokens == if ok then old(tokens) - NANOS else old(tokens)
    {
      var elapsed := Elapsed(lastRefill, now);
      lastRefill := now;
      tokens := tokens + elapsed * rate;
      if tokens > capacity {
        tokens := capacity;
      }
      if tokens >= NANOS {
        tokens := tokens - NANOS;
        ok := true;
      } else {
        ok := false;
      }
    }
  }

  /** The shared limiter: one bucket per address and the wrapping call counter. */
  class RateLimiter {
    var buckets: map<IpAddr, TokenBucket>
    const rateRps: nat
    var checkCount: nat

    /** The buckets are distinct objects, each built for this limiter's rate. */
    ghost predicate Valid()
      reads this
    {
      && (forall ip <- buckets :: buckets[ip].Valid() && buckets[ip].rate == rateRps)
      && (forall a <- buckets, b <- buckets :: a != b ==> buckets[a] != buckets[b])
    }

    ghost function Slots(): set<TokenBucket>
      reads this
    {
      buckets.Values
    }

    ghost function Value(): Limiter
      reads this, Slots()
    {
      Limiter(rateRps, map ip | ip in buckets :: buckets[ip].Value(), checkCount)
    }

    constructor (rateRps: nat)
      ensures Valid() && Value() == NewLimiter(rateRps) && Slots() == {}
    {
      buckets, checkCount := map[], 0;
      this.rateRps := rateRps;
    }

    method Check(ip: IpAddr, now: nat) returns (ok: bool)
      requires Valid()
      modifies this, Slots()
      ensures Valid() && fresh(Slots() - old(Slots()))
      ensures ok == Allows(old(Value()), ip, now)
      ensures Value() == Checked(old(Value()), ip, now)
    {
      ghost var before := Value();
      CountCall(now);
      EntryOrInsert(ip, now);
      ok := ConsumeFrom(ip, now);
      CheckedInSteps(before, ip, now);
    }

    /** The counter update at the head of `check`, with the sweep it may trigger. */
    method CountCall(now: nat)
      requires Valid()
      modifies this
      ensures Valid() && Slots() <= old(Slots())
      ensures Value() == CountedCall(old(Value()), now)
    {
      var n := checkCount;
      checkCount := (checkCount + 1) % U64_RANGE;
      assert Value().buckets == old(Value()).buckets;
      if n > 0 && n % EVICT_EVERY_N_CHECKS == 0 {
        EvictStale(now);
      }
    }

    /** `.try_consume()` on the slot of `ip`; every other slot keeps its value. */
    method ConsumeFrom(ip: IpAddr, now: nat) returns (ok: bool)
      requires Valid() && ip in buckets
      modifies buckets[ip]
      ensures Valid()
      ensures ok == Grants(rateRps, old(Value()).buckets[ip], now)
      ensures Value() == Spent(old(Value()), ip, now)
    {
      ok := buckets[ip].TryConsume(now);
      assert Value().buckets == old(Value()).buckets[ip := buckets[ip].Value()];
    }

    /** `entry(ip).or_insert_with(..)`: the slot of `ip`, full if it is new. */
    method EntryOrInsert(ip: IpAddr, now: nat)
      requires Valid()
      modifies this`buckets
      ensures Valid() && ip in buckets
      ensures fresh(Slots() - old(Slots()))
      ensures buckets[ip] in old(Slots()) || fresh(buckets[ip])
      ensures Value() == Entered(old(Value()), ip, now)
    {
      if ip !in buckets {
        var slot := new TokenBucket(rateRps, now);
        buckets := buckets[ip := slot];
      }
      assert Value().buckets == old(Value()).buckets[ip := buckets[ip].Value()];
    }

    method EvictStale(now: nat)
      requires Valid()
      modifies this`buckets
      ensures Valid() && Slots() <= old(Slots())
      ensures Value() == old(Value()).(buckets := Swept(old(Value()).buckets, now))
    {
      if now < STALE_BUCKET_TTL {
        return;
      }
      var cutoff := now - STALE_BUCKET_TTL;
      buckets := map ip | ip in buckets && buckets[ip].lastRefill >= cutoff :: buckets[ip];
    }

    method BucketCount() returns (n: nat)
      requires Valid()
      ensures n == |Value().buckets|
    {
      n := |buckets|;
      assert Value().buckets.Keys == buckets.Keys;
    }
  }
}
