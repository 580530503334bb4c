/** The rate limiter inside the middleware stack: what a client sees of it, request by request. */
module StackLimits {
  import opened Lists
  import opened RateLimiting
  import opened RequestLedger
  import LimiterRuns
  import LimiterBounds

  /** What the rate limiter sees of a run of the stack. */
  function Events(acts: seq<Action>): seq<LimiterRuns.Event> {
    if acts == [] then []
    else
      var a := acts[|acts| - 1];
      var earlier := Events(acts[..|acts| - 1]);
      if a.Arrive? then earlier + [LimiterRuns.Check(a.ip, a.at)]
      else if a.Evict? then earlier + [a.event]
      else earlier
  }

  /** A stack that has not served anything yet. */
  predicate Fresh(s: Stack) {
    s.limiter == NewLimiter(s.limiter.rate) && s.requests == []
  }

  lemma {:induction false} LimiterSeesEvents(start: Stack, acts: seq<Action>)
    requires Fresh(start) && Feasible(start, acts)
    ensures Run(start, acts).limiter == LimiterRuns.Run(start.limiter.rate, Events(acts))
  {
    if acts != [] {
      var prior, a := acts[..|acts| - 1], acts[|acts| - 1];
      LimiterSeesEvents(start, prior);
      LimiterStep(Run(start, prior), a);
      if a.Arrive? {
        RunLonger(start.limiter.rate, Events(prior), LimiterRuns.Check(a.ip, a.at));
      } else if a.Evict? {
        RunLonger(start.limiter.rate, Events(prior), a.event);
      }
    }
  }

  lemma LimiterStep(s: Stack, a: Action)
    requires Enabled(s, a)
    ensures Apply(s, a).limiter
            == if a.Arrive? then LimiterRuns.After(s.limiter, LimiterRuns.Check(a.ip, a.at))
               else if a.Evict? then LimiterRuns.After(s.limiter, a.event)
               else s.limiter
  {
  }

  lemma RunLonger(rate: nat, evs: seq<LimiterRuns.Event>, e: LimiterRuns.Event)
    ensures LimiterRuns.Run(rate, evs + [e]) == LimiterRuns.After(LimiterRuns.Run(rate, evs), e)
  {
    assert (evs + [e])[..|evs|] == evs;
  }

  /** Whatever comes to the limiter in whole checks and in sweeps, some run of the stack brings it. */
  lemma {:induction false} EveryTrafficHappens(start: Stack, evs: seq<LimiterRuns.Event>) returns (acts: seq<Action>)
    requires forall e <- evs :: e.Check? || e.Sweep? || e.SweepShard?
    ensures Feasible(start, acts) && Events(acts) == evs
  {
    acts := [];
    if evs != [] {
      var n := |evs| - 1;
      var prior := EveryTrafficHappens(start, evs[..n]);
      var e := evs[n];
      acts := Then(start, prior, if e.Check? then Arrive(e.ip, e.at) else Evict(e));
      assert evs == evs[..n] + [e] && acts[..|prior|] == prior;
    }
  }

  // ----- Who is answered 429 -----

  /** The times at which requests of `ip` arrived. */
  function ArrivalTimes(rs: seq<Request>, ip: IpAddr): seq<nat> {
    if rs == [] then []
    else
      var r := rs[|rs| - 1];
      ArrivalTimes(rs[..|rs| - 1], ip) + (if r.ip == ip then [r.at] else [])
  }

  lemma {:induction false} ArrivalTimesSame(rs: seq<Request>, rs': seq<Request>, ip: IpAddr)
    requires |rs| == |rs'|
    requires forall i :: 0 <= i < |rs| ==> rs[i].ip == rs'[i].ip && rs[i].at == rs'[i].at
    ensures ArrivalTimes(rs, ip) == ArrivalTimes(rs', ip)
  {
    if rs != [] {
      ArrivalTimesSame(rs[..|rs| - 1], rs'[..|rs| - 1], ip);
    }
  }

  lemma ArrivalTimesStep(s: Stack, a: Action, ip: IpAddr)
    requires Enabled(s, a)
    ensures ArrivalTimes(Apply(s, a).requests, ip)
            == ArrivalTimes(s.requests, ip) + (if a.Arrive? && a.ip == ip then [a.at] else [])
  {
    var after := Apply(s, a).requests;
    if a.Arrive? {
      assert after[..|s.requests|] == s.requests;
    } else {
      ArrivalTimesSame(after, s.requests, ip);
    }
  }

  lemma TimesLonger(ip: IpAddr, evs: seq<LimiterRuns.Event>, e: LimiterRuns.Event)
    ensures LimiterRuns.Times(ip, evs + [e])
            == LimiterRuns.Times(ip, evs) + (if LimiterRuns.ProbesFor(e, ip) then [e.at] else [])
  {
    assert (evs + [e])[..|evs|] == evs;
  }

  /** The limiter was asked for this address exactly when its requests arrived. */
  lemma {:induction false} ArrivalsAreTimes(start: Stack, acts: seq<Action>, ip: IpAddr)
    requires Fresh(start) && Feasible(start, acts)
    ensures ArrivalTimes(Run(start, acts).requests, ip) == LimiterRuns.Times(ip, Events(acts))
  {
    if acts != [] {
      var prior, a := acts[..|acts| - 1], acts[|acts| - 1];
      ArrivalsAreTimes(start, prior, ip);
      ArrivalTimesStep(Run(start, prior), a, ip);
      if a.Arrive? {
        TimesLonger(ip, Events(prior), LimiterRuns.Check(a.ip, a.at));
      } else if a.Evict? {
        TimesLonger(ip, Events(prior), a.event);
      }
    }
  }

  lemma NextArrivalLimited(start: Stack, acts: seq<Action>, ip: IpAddr, at: nat)
    requires Fresh(start) && Feasible(start, acts)
    requires LimiterRuns.Ordered(Events(acts) + [LimiterRuns.Check(ip, at)])
    ensures !Allows(Run(start, acts).limiter, ip, at)
            <==> LimiterRuns.OverLimit(start.limiter.rate, ArrivalTimes(Run(start, acts).requests, ip) + [at])
  {
    LimiterSeesEvents(start, acts);
    ArrivalsAreTimes(start, acts, ip);
    LimiterRuns.NextCheckRefusedIff(start.limiter.rate, Events(acts), ip, at);
  }

  /** What the arrivals of its address up to it say about request `i`. */
  ghost predicate ArrivedOverLimit(rate: nat, rs: seq<Request>, i: nat)
    requires i < |rs|
  {
    LimiterRuns.OverLimit(rate, ArrivalTimes(rs[..i + 1], rs[i].ip))
  }

  lemma ArrivalVerdict(start: Stack, acts: seq<Action>)
    requires Fresh(start) && Feasible(start, acts) && LimiterRuns.Ordered(Events(acts))
    requires acts != [] && acts[|acts| - 1].Arrive?
    ensures var rs := Run(start, acts).requests;
      && rs != []
      && (rs[|rs| - 1].stage.Limited? <==> ArrivedOverLimit(start.limiter.rate, rs, |rs| - 1))
  {
    var prior, a := acts[..|acts| - 1], acts[|acts| - 1];
    var before, after := Run(start, prior), Run(start, acts);
    NextArrivalLimited(start, prior, a.ip, a.at);
    ArrivalTimesStep(before, a, a.ip);
    assert after.requests[..|after.requests|] == after.requests;
  }

  lemma ArrivedOverLimitKept(rate: nat, s: Stack, a: Action, i: nat)
    requires Enabled(s, a) && i < |s.requests|
    ensures i < |Apply(s, a).requests|
    ensures ArrivedOverLimit(rate, Apply(s, a).requests, i) <==> ArrivedOverLimit(rate, s.requests, i)
    ensures Apply(s, a).requests[i].stage.Limited? <==> s.requests[i].stage.Limited?
  {
    StagesAdvance(s, a, i);
    ArrivalTimesSame(Apply(s, a).requests[..i + 1], s.requests[..i + 1], s.requests[i].ip);
  }

  lemma OrderedPrior(acts: seq<Action>)
    requires acts != [] && LimiterRuns.Ordered(Events(acts))
    ensures LimiterRuns.Ordered(Events(acts[..|acts| - 1]))
  {
    var evs, earlier := Events(acts), Events(acts[..|acts| - 1]);
    assert forall k :: 0 <= k < |earlier| ==> earlier[k] == evs[k];
  }

  /**
   * End to end: through any interleaving, a request is answered 429 exactly if some window of
   * its own address's arrivals, ending in its own, has no room for it.
   */
  lemma {:induction false} LimitedIffOverLimit(start: Stack, acts: seq<Action>, i: nat)
    requires Fresh(start) && Feasible(start, acts) && LimiterRuns.Ordered(Events(acts))
    requires i < |Run(start, acts).requests|
    ensures Run(start, acts).requests[i].stage.Limited?
            <==> ArrivedOverLimit(start.limiter.rate, Run(start, acts).requests, i)
  {
    var prior, a := acts[..|acts| - 1], acts[|acts| - 1];
    var before := Run(start, prior);
    if i == |before.requests| {
      ArrivalVerdict(start, acts);
    } else {
      OrderedPrior(acts);
      LimitedIffOverLimit(start, prior, i);
      ArrivedOverLimitKept(start.limiter.rate, before, a, i);
    }
  }

  // ----- How many get past it -----

  /** Counts the requests of `ip` that arrived in `[s, t]` and were not answered 429. */
  function NotLimited(ip: IpAddr, s: nat, t: nat): Request -> int {
    (r: Request) => if r.ip == ip && s <= r.at <= t && !r.stage.Limited? then 1 else 0
  }

  /** How one action changes the number of requests past the limiter. */
  lemma NotLimitedStep(s: Stack, a: Action, ip: IpAddr, from: nat, to: nat)
    requires Enabled(s, a)
    ensures Sum(Apply(s, a).requests, NotLimited(ip, from, to))
            == Sum(s.requests, NotLimited(ip, from, to))
               + (if a.Arrive? && a.ip == ip && from <= a.at <= to && Allows(s.limiter, a.ip, a.at) then 1 else 0)
  {
    SumStep(s, a, NotLimited(ip, from, to));
    if Moves(a) {
      StagesAdvance(s, a, a.i);
    }
  }

  /** The requests of `ip` past the limiter, and the probes of `ip` that it let through. */
  ghost predicate CountsAgree(start: Stack, acts: seq<Action>, ip: IpAddr, from: nat, to: nat)
    requires Feasible(start, acts)
  {
    Sum(Run(start, acts).requests, NotLimited(ip, from, to))
    == LimiterBounds.AllowedBetween(start.limiter.rate, Events(acts), ip, from, to)
  }

  lemma {:induction false} NotLimitedCount(start: Stack, acts: seq<Action>, ip: IpAddr, from: nat, to: nat)
    requires Fresh(start) && Feasible(start, acts)
    ensures CountsAgree(start, acts, ip, from, to)
  {
    if acts != [] {
      var prior, a := acts[..|acts| - 1], acts[|acts| - 1];
      NotLimitedCount(start, prior, ip, from, to);
      CountsStep(start, prior, acts, a, ip, from, to);
    }
  }

  lemma CountsStep(start: Stack, prior: seq<Action>, acts: seq<Action>, a: Action, ip: IpAddr, from: nat, to: nat)
    requires Fresh(start) && Feasible(start, acts) && Feasible(start, prior)
    requires acts != [] && prior == acts[..|acts| - 1] && a == acts[|acts| - 1]
    requires CountsAgree(start, prior, ip, from, to)
    ensures CountsAgree(start, acts, ip, from, to)
  {
    LimiterSeesEvents(start, prior);
    NotLimitedStep(Run(start, prior), a, ip, from, to);
    AllowedStep(start.limiter.rate, acts, ip, from, to);
  }

  lemma AllowedStep(rate: nat, acts: seq<Action>, ip: IpAddr, from: nat, to: nat)
    requires acts != [] && (acts[|acts| - 1].Evict? ==> !LimiterRuns.Probes(acts[|acts| - 1].event))
    ensures var a, earlier := acts[|acts| - 1], Events(acts[..|acts| - 1]);
      LimiterBounds.AllowedBetween(rate, Events(acts), ip, from, to)
      == LimiterBounds.AllowedBetween(rate, earlier, ip, from, to)
         + (if a.Arrive? && a.ip == ip && from <= a.at <= to && Allows(LimiterRuns.Run(rate, earlier), a.ip, a.at)
            then 1 else 0)
  {
    var a, earlier := acts[|acts| - 1], Events(acts[..|acts| - 1]);
    if a.Arrive? {
      CountLonger(rate, earlier, a.ip, a.at, ip, from, to);
    } else if a.Evict? {
      LimiterBounds.AllowedBetweenLonger(rate, earlier, a.event, ip, from, to);
    }
  }

  lemma CountLonger(rate: nat, evs: seq<LimiterRuns.Event>, asker: IpAddr, at: nat, ip: IpAddr, from: nat, to: nat)
    ensures LimiterBounds.AllowedBetween(rate, evs + [LimiterRuns.Check(asker, at)], ip, from, to)
            == LimiterBounds.AllowedBetween(rate, evs, ip, from, to)
               + (if asker == ip && from <= at <= to && Allows(LimiterRuns.Run(rate, evs), asker, at) then 1 else 0)
  {
    LimiterBounds.AllowedBetweenLonger(rate, evs, LimiterRuns.Check(asker, at), ip, from, to);
  }

  /** In any window, no address gets more requests past the limiter than its bucket supplies. */
  lemma AdmittedPerWindow(start: Stack, acts: seq<Action>, ip: IpAddr, s: nat, t: nat)
    requires Fresh(start) && Feasible(start, acts)
    requires LimiterRuns.Ordered(Events(acts)) && s <= t
    ensures NANOS * Sum(Run(start, acts).requests, NotLimited(ip, s, t))
            <= start.limiter.rate * (NANOS + (t - s))
  {
    NotLimitedCount(start, acts, ip, s, t);
    LimiterBounds.WindowBound(start.limiter.rate, Events(acts), ip, s, t);
  }
}
