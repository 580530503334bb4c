/**
 * Requests on their way through the middleware stack and the inner service: the
 * rate limiter, the concurrency semaphore and the metrics counters, as a step system
 * in which one atomic operation is one action and requests interleave freely.
 */
module RequestLedger {
  import opened Lists
  import opened RateLimiting
  import LimiterRuns

  /** What dispatch produced: a handler's status, or the processing timeout. */
  datatype Verdict = Handled(status: nat) | Expired

  function StatusOf(v: Verdict): nat {
    if v.Expired? then 503 else v.status
  }

  datatype Stage =
    | Limited                          // 429, never reached the concurrency limiter
    | PastLimiter                      // about to try for a permit
    | Capped                           // 503, no permit was free
    | Admitted                         // permit held, inner future not yet polled
    | Counted                          // requests_total incremented
    | Active                           // requests_active incremented
    | Collecting                       // awaiting the body
    | Dispatching                      // awaiting the handler, under the timeout
    | Responded(verdict: Verdict)
    | Tallied(verdict: Verdict)        // status class counted
    | Closing(verdict: Verdict)        // requests_active decremented
    | Finished(verdict: Verdict)       // permit returned
    | Early(status: nat)               // returned 413 or 400 before dispatch
    | Abandoned(counted: bool)         // future dropped

  datatype Request = Request(ip: IpAddr, at: nat, stage: Stage)

  datatype Metrics = Metrics(total: int, active: int, ok2xx: int, err4xx: int, err5xx: int, timedOut: int)

  datatype Stack = Stack(maxConcurrent: nat, free: int, limiter: Limiter, metrics: Metrics, requests: seq<Request>)

  datatype Action =
    | Arrive(ip: IpAddr, at: nat)
    | Evict(event: LimiterRuns.Event)
    | TryAcquire(i: nat)
    | CountTotal(i: nat)
    | CountActive(i: nat)
    | RejectLength(i: nat)
    | Collect(i: nat)
    | RejectBody(i: nat, status: nat)
    | Dispatch(i: nat)
    | Respond(i: nat, status: nat)
    | Expire(i: nat)
    | Tally(i: nat)
    | UncountActive(i: nat)
    | Finish(i: nat)
    | Drop(i: nat)

  function Start(maxConcurrent: nat, rate: nat): Stack {
    Stack(maxConcurrent, maxConcurrent, NewLimiter(rate), Metrics(0, 0, 0, 0, 0, 0), [])
  }

  predicate Moves(a: Action) {
    !a.Arrive? && !a.Evict?
  }

  /** Futures are dropped only where they are suspended: unpolled, or at an await. */
  predicate StageAllows(stage: Stage, a: Action) {
    match a
    case Arrive(_, _) => false
    case Evict(_) => false
    case TryAcquire(_) => stage.PastLimiter?
    case CountTotal(_) => stage.Admitted?
    case CountActive(_) => stage.Counted?
    case RejectLength(_) => stage.Active?
    case Collect(_) => stage.Active?
    case RejectBody(_, status) => stage.Collecting? && (status == 413 || status == 400)
    case Dispatch(_) => stage.Collecting?
    case Respond(_, _) => stage.Dispatching?
    case Expire(_) => stage.Dispatching?
    case Tally(_) => stage.Responded?
    case UncountActive(_) => stage.Tallied?
    case Finish(_) => stage.Closing?
    case Drop(_) => stage.Admitted? || stage.Collecting? || stage.Dispatching?
  }

  predicate Enabled(s: Stack, a: Action) {
    match a
    case Arrive(_, _) => true
    case Evict(event) => event.Sweep? || event.SweepShard?
    case _ => a.i < |s.requests| && StageAllows(s.requests[a.i].stage, a)
  }

  function NextStage(stage: Stage, a: Action, permitFree: bool): Stage
    requires StageAllows(stage, a)
  {
    match a
    case TryAcquire(_) => if permitFree then Admitted else Capped
    case CountTotal(_) => Counted
    case CountActive(_) => Active
    case RejectLength(_) => Early(413)
    case Collect(_) => Collecting
    case RejectBody(_, status) => Early(status)
    case Dispatch(_) => Dispatching
    case Respond(_, status) => Responded(Handled(status))
    case Expire(_) => Responded(Expired)
    case Tally(_) => Tallied(stage.verdict)
    case UncountActive(_) => Closing(stage.verdict)
    case Finish(_) => Finished(stage.verdict)
    case Drop(_) => Abandoned(!stage.Admitted?)
  }

  /** The class counters of the inner service: everything from 300 to 499 counts as 4xx. */
  function Tallying(m: Metrics, status: nat): Metrics {
    if status < 300 then m.(ok2xx := m.ok2xx + 1)
    else if status < 500 then m.(err4xx := m.err4xx + 1)
    else m.(err5xx := m.err5xx + 1)
  }

  function NextMetrics(m: Metrics, stage: Stage, a: Action): Metrics
    requires StageAllows(stage, a)
  {
    match a
    case CountTotal(_) => m.(total := m.total + 1)
    case CountActive(_) => m.(active := m.active + 1)
    case Expire(_) => m.(timedOut := m.timedOut + 1)
    case Tally(_) => Tallying(m, StatusOf(stage.verdict))
    case UncountActive(_) => m.(active := m.active - 1)
    case _ => m
  }

  function NextFree(free: int, a: Action): int {
    match a
    case TryAcquire(_) => if free > 0 then free - 1 else free
    case RejectLength(_) => free + 1
    case RejectBody(_, _) => free + 1
    case Finish(_) => free + 1
    case Drop(_) => free + 1
    case _ => free
  }

  function Apply(s: Stack, a: Action): Stack
    requires Enabled(s, a)
  {
    match a
    case Arrive(ip, at) =>
      var stage := if Allows(s.limiter, ip, at) then PastLimiter else Limited;
      s.(limiter := Checked(s.limiter, ip, at), requests := s.requests + [Request(ip, at, stage)])
    case Evict(event) => s.(limiter := LimiterRuns.After(s.limiter, event))
    case _ =>
      var r := s.requests[a.i];
      s.(free := NextFree(s.free, a),
         metrics := NextMetrics(s.metrics, r.stage, a),
         requests := s.requests[a.i := r.(stage := NextStage(r.stage, a, s.free > 0))])
  }

  predicate Feasible(start: Stack, acts: seq<Action>)
    decreases |acts|, 0
  {
    acts == [] ||
    (Feasible(start, acts[..|acts| - 1]) && Enabled(Run(start, acts[..|acts| - 1]), acts[|acts| - 1]))
  }

  function Run(start: Stack, acts: seq<Action>): Stack
    requires Feasible(start, acts)
    decreases |acts|, 1
  {
    if acts == [] then start
    else Apply(Run(start, acts[..|acts| - 1]), acts[|acts| - 1])
  }

  // ----- What a request contributes to each counter, by its stage alone -----

  function InTotal(r: Request): int {
    match r.stage
    case Limited | PastLimiter | Capped | Admitted => 0
    case Abandoned(counted) => if counted then 1 else 0
    case _ => 1
  }

  function InActive(r: Request): int {
    match r.stage
    case Active | Collecting | Dispatching | Responded(_) | Tallied(_) | Early(_) => 1
    case Abandoned(counted) => if counted then 1 else 0
    case _ => 0
  }

  /** The status class a tallied request was counted in: 2, 4 or 5, and 0 for none. */
  function ClassOf(stage: Stage): int {
    match stage
    case Tallied(_) | Closing(_) | Finished(_) =>
      var status := StatusOf(stage.verdict);
      if status < 300 then 2 else if status < 500 then 4 else 5
    case _ => 0
  }

  function In2xx(r: Request): int { if ClassOf(r.stage) == 2 then 1 else 0 }
  function In4xx(r: Request): int { if ClassOf(r.stage) == 4 then 1 else 0 }
  function In5xx(r: Request): int { if ClassOf(r.stage) == 5 then 1 else 0 }

  function InTimedOut(r: Request): int {
    match r.stage
    case Responded(_) | Tallied(_) | Closing(_) | Finished(_) => if r.stage.verdict.Expired? then 1 else 0
    case _ => 0
  }

  function HoldsPermit(r: Request): int {
    match r.stage
    case Admitted | Counted | Active | Collecting | Dispatching => 1
    case Responded(_) | Tallied(_) | Closing(_) => 1
    case _ => 0
  }

  /** Between the increments of requests_total and requests_active. */
  function JustCounted(r: Request): int { if r.stage.Counted? then 1 else 0 }
  /** Between its class counter and the decrement of requests_active. */
  function JustTallied(r: Request): int { if r.stage.Tallied? then 1 else 0 }
  /** Between its verdict and its class counter. */
  function JustResponded(r: Request): int { if r.stage.Responded? then 1 else 0 }
  /** Left with requests_active still counting it. */
  function Leaked(r: Request): int {
    if r.stage.Early? || r.stage == Abandoned(true) then 1 else 0
  }

  ghost predicate GaugesAgree(s: Stack) {
    && s.metrics.total == Sum(s.requests, InTotal)
    && s.metrics.active == Sum(s.requests, InActive)
    && s.metrics.timedOut == Sum(s.requests, InTimedOut)
  }

  ghost predicate ClassesAgree(s: Stack) {
    && s.metrics.ok2xx == Sum(s.requests, In2xx)
    && s.metrics.err4xx == Sum(s.requests, In4xx)
    && s.metrics.err5xx == Sum(s.requests, In5xx)
  }

  ghost predicate PermitsAgree(s: Stack) {
    s.free >= 0 && s.free + Sum(s.requests, HoldsPermit) == s.maxConcurrent
  }

  /** Every counter is the sum of what the requests contribute by their stages alone. */
  ghost predicate Ledger(s: Stack) {
    GaugesAgree(s) && ClassesAgree(s) && PermitsAgree(s)
  }

  function Delta(s: Stack, a: Action, w: Request -> int): int
    requires Enabled(s, a)
  {
    match a
    case Arrive(ip, at) => w(Apply(s, a).requests[|s.requests|])
    case Evict(_) => 0
    case _ => w(Apply(s, a).requests[a.i]) - w(s.requests[a.i])
  }

  lemma SumStep(s: Stack, a: Action, w: Request -> int)
    requires Enabled(s, a)
    ensures Sum(Apply(s, a).requests, w) == Sum(s.requests, w) + Delta(s, a, w)
  {
    if a.Arrive? {
      SumAppend(s.requests, Apply(s, a).requests[|s.requests|], w);
    } else if !a.Evict? {
      SumUpdate(s.requests, a.i, Apply(s, a).requests[a.i], w);
    }
  }

  /** What a move does to the counters is what it does to the request's contributions. */
  lemma MoveContribution(m: Metrics, r: Request, a: Action, permitFree: bool)
    requires StageAllows(r.stage, a)
    ensures var m' := NextMetrics(m, r.stage, a);
      var r' := r.(stage := NextStage(r.stage, a, permitFree));
      && m'.total - m.total == InTotal(r') - InTotal(r)
      && m'.active - m.active == InActive(r') - InActive(r)
      && m'.timedOut - m.timedOut == InTimedOut(r') - InTimedOut(r)
      && m'.ok2xx - m.ok2xx == In2xx(r') - In2xx(r)
      && m'.err4xx - m.err4xx == In4xx(r') - In4xx(r)
      && m'.err5xx - m.err5xx == In5xx(r') - In5xx(r)
  {
  }

  lemma GaugesStep(s: Stack, a: Action)
    requires GaugesAgree(s) && Enabled(s, a)
    ensures GaugesAgree(Apply(s, a))
  {
    if Moves(a) {
      MoveContribution(s.metrics, s.requests[a.i], a, s.free > 0);
    }
    SumStep(s, a, InTotal);
    SumStep(s, a, InActive);
    SumStep(s, a, InTimedOut);
  }

  lemma ClassesStep(s: Stack, a: Action)
    requires ClassesAgree(s) && Enabled(s, a)
    ensures ClassesAgree(Apply(s, a))
  {
    if Moves(a) {
      MoveContribution(s.metrics, s.requests[a.i], a, s.free > 0);
    }
    SumStep(s, a, In2xx);
    SumStep(s, a, In4xx);
    SumStep(s, a, In5xx);
  }

  lemma PermitsStep(s: Stack, a: Action)
    requires PermitsAgree(s) && Enabled(s, a)
    ensures PermitsAgree(Apply(s, a))
  {
    SumStep(s, a, HoldsPermit);
  }

  lemma {:induction false} LedgerRun(maxConcurrent: nat, rate: nat, acts: seq<Action>)
    requires Feasible(Start(maxConcurrent, rate), acts)
    ensures Ledger(Run(Start(maxConcurrent, rate), acts))
    ensures Run(Start(maxConcurrent, rate), acts).maxConcurrent == maxConcurrent
    ensures Run(Start(maxConcurrent, rate), acts).limiter.rate == rate
  {
    if acts != [] {
      var prior := acts[..|acts| - 1];
      LedgerRun(maxConcurrent, rate, prior);
      var s, a := Run(Start(maxConcurrent, rate), prior), acts[|acts| - 1];
      GaugesStep(s, a);
      ClassesStep(s, a);
      PermitsStep(s, a);
    }
  }

  // ----- Results over every run -----

  /** Pointwise, a request is in as many of the counters on one side as on the other. */
  function InBalance(r: Request): int {
    InTotal(r) + JustTallied(r) - InActive(r) - In2xx(r) - In4xx(r) - In5xx(r) - JustCounted(r)
  }

  lemma {:induction false} SumBalance(rs: seq<Request>)
    ensures Sum(rs, InTotal) + Sum(rs, JustTallied)
            == Sum(rs, InActive) + Sum(rs, In2xx) + Sum(rs, In4xx) + Sum(rs, In5xx) + Sum(rs, JustCounted)
  {
    if rs != [] {
      SumBalance(rs[..|rs| - 1]);
      assert InBalance(rs[|rs| - 1]) == 0;
    }
  }

  lemma {:induction false} SumTimeouts(rs: seq<Request>)
    ensures Sum(rs, InTimedOut) <= Sum(rs, In5xx) + Sum(rs, JustResponded)
  {
    if rs != [] {
      SumTimeouts(rs[..|rs| - 1]);
    }
  }

  /**
   * The ledger: total = active + 2xx + 4xx + 5xx, corrected by exactly the requests that
   * stand between two adjacent counter updates; active never underflows; and every timeout is
   * among the 5xx or about to be.
   */
  lemma LedgerBalances(maxConcurrent: nat, rate: nat, acts: seq<Action>)
    requires Feasible(Start(maxConcurrent, rate), acts)
    ensures var s := Run(Start(maxConcurrent, rate), acts);
      && s.metrics.total
         == s.metrics.active + s.metrics.ok2xx + s.metrics.err4xx + s.metrics.err5xx
            + Sum(s.requests, JustCounted) - Sum(s.requests, JustTallied)
      && s.metrics.active >= 0
      && s.metrics.timedOut <= s.metrics.err5xx + Sum(s.requests, JustResponded)
  {
    LedgerRun(maxConcurrent, rate, acts);
    var s := Run(Start(maxConcurrent, rate), acts);
    SumBalance(s.requests);
    SumTimeouts(s.requests);
    SumNonNegative(s.requests, InActive);
  }

  /** Being served: between the increment and the decrement of requests_active. */
  function Live(r: Request): int {
    match r.stage
    case Active | Collecting | Dispatching | Responded(_) | Tallied(_) => 1
    case _ => 0
  }

  lemma {:induction false} SumLive(rs: seq<Request>)
    ensures Sum(rs, InActive) == Sum(rs, Live) + Sum(rs, Leaked)
  {
    if rs != [] {
      SumLive(rs[..|rs| - 1]);
    }
  }

  lemma SumIsZeroIff(rs: seq<Request>)
    ensures Sum(rs, Leaked) == 0 <==> forall r <- rs :: Leaked(r) == 0
  {
    SumNonNegative(rs, Leaked);
    if Sum(rs, Leaked) > 0 {
      var i := SumWitness(rs, Leaked);
      assert rs[i] in rs;
    } else {
      forall r <- rs ensures Leaked(r) == 0 {
        var i :| 0 <= i < |rs| && rs[i] == r;
      }
    }
  }

  /**
   * In every run requests_active is the requests being served plus all that ever leaked, so
   * the gauge reads what it is documented to read if and only if none has leaked so far.
   */
  lemma GaugeIsLivePlusLeaked(maxConcurrent: nat, rate: nat, acts: seq<Action>)
    requires Feasible(Start(maxConcurrent, rate), acts)
    ensures var s := Run(Start(maxConcurrent, rate), acts);
      && s.metrics.active == Sum(s.requests, Live) + Sum(s.requests, Leaked)
      && (s.metrics.active == Sum(s.requests, Live) <==> forall r <- s.requests :: Leaked(r) == 0)
  {
    LedgerRun(maxConcurrent, rate, acts);
    var s := Run(Start(maxConcurrent, rate), acts);
    SumLive(s.requests);
    SumIsZeroIff(s.requests);
  }

  predicate AtRest(r: Request) {
    r.stage.Limited? || r.stage.Capped? || r.stage.Finished? || r.stage.Early? || r.stage.Abandoned?
  }

  lemma {:induction false} SumAtRest(rs: seq<Request>)
    requires forall r <- rs :: AtRest(r)
    ensures Sum(rs, InActive) == Sum(rs, Leaked)
    ensures Sum(rs, HoldsPermit) == Sum(rs, JustCounted) == Sum(rs, JustTallied) == 0
    ensures Sum(rs, InTimedOut) <= Sum(rs, In5xx)
  {
    if rs != [] {
      var n := |rs| - 1;
      assert AtRest(rs[n]);
      SumAtRest(rs[..n]);
    }
  }

  /**
   * At rest every permit is back and every timeout is among the 5xx, but requests_active
   * still counts each request that returned early or was dropped: it is zero exactly if there is none.
   */
  lemma CountersAtRest(maxConcurrent: nat, rate: nat, acts: seq<Action>)
    requires Feasible(Start(maxConcurrent, rate), acts)
    requires forall r <- Run(Start(maxConcurrent, rate), acts).requests :: AtRest(r)
    ensures var s := Run(Start(maxConcurrent, rate), acts);
      && s.free == maxConcurrent
      && s.metrics.timedOut <= s.metrics.err5xx
      && s.metrics.active == Sum(s.requests, Leaked)
      && (s.metrics.active == 0 <==> forall r <- s.requests :: Leaked(r) == 0)
      && s.metrics.total == s.metrics.active + s.metrics.ok2xx + s.metrics.err4xx + s.metrics.err5xx
  {
    LedgerBalances(maxConcurrent, rate, acts);
    LedgerRun(maxConcurrent, rate, acts);
    var s := Run(Start(maxConcurrent, rate), acts);
    SumAtRest(s.requests);
    SumIsZeroIff(s.requests);
  }

  /** One oversized request is enough: at rest, with nothing in flight, requests_active reads 1. */
  lemma EarlyReturnLeaks() returns (acts: seq<Action>)
    ensures Feasible(Start(1, 1), acts)
    ensures var s := Run(Start(1, 1), acts);
      s.requests == [Request(V4(0), 0, Early(413))] && s.metrics.active == 1
  {
    acts := [];
    acts := Then(Start(1, 1), acts, Arrive(V4(0), 0));
    acts := Then(Start(1, 1), acts, TryAcquire(0));
    acts := Then(Start(1, 1), acts, CountTotal(0));
    acts := Then(Start(1, 1), acts, CountActive(0));
    acts := Then(Start(1, 1), acts, RejectLength(0));
  }

  /** One action more. */
  lemma Then(start: Stack, acts: seq<Action>, a: Action) returns (longer: seq<Action>)
    requires Feasible(start, acts) && Enabled(Run(start, acts), a)
    ensures longer == acts + [a] && Feasible(start, longer) && Run(start, longer) == Apply(Run(start, acts), a)
  {
    longer := acts + [a];
    assert longer[..|acts|] == acts;
  }

  /** Requests forwarded to the inner service and not yet completed or dropped. */
  function Forwarded(s: Stack): int {
    Sum(s.requests, HoldsPermit)
  }

  /** A 503 is given exactly when all permits are in use; otherwise one permit is taken. */
  lemma CappedIffFull(maxConcurrent: nat, rate: nat, acts: seq<Action>, i: nat)
    requires Feasible(Start(maxConcurrent, rate), acts)
    requires Enabled(Run(Start(maxConcurrent, rate), acts), TryAcquire(i))
    ensures var s := Run(Start(maxConcurrent, rate), acts);
      var t := Apply(s, TryAcquire(i));
      && Forwarded(s) <= maxConcurrent
      && if Forwarded(s) == maxConcurrent
         then t.requests[i].stage.Capped? && Forwarded(t) == Forwarded(s)
         else t.requests[i].stage.Admitted? && Forwarded(t) == Forwarded(s) + 1 <= maxConcurrent
  {
    LedgerRun(maxConcurrent, rate, acts);
    SumStep(Run(Start(maxConcurrent, rate), acts), TryAcquire(i), HoldsPermit);
  }

  /** Completing, returning early and being dropped each give back exactly one permit. */
  lemma LeavingReturnsPermit(s: Stack, a: Action)
    requires Enabled(s, a) && Moves(a) && !a.TryAcquire?
    ensures var t := Apply(s, a);
      if AtRest(t.requests[a.i])
      then t.free == s.free + 1 && Forwarded(t) == Forwarded(s) - 1
      else t.free == s.free && Forwarded(t) == Forwarded(s)
  {
    SumStep(s, a, HoldsPermit);
  }

  /** A request only ever moves forward, so it takes at most one permit and returns it at most once. */
  function Rank(stage: Stage): nat {
    match stage
    case PastLimiter => 0
    case Admitted => 1
    case Counted => 2
    case Active => 3
    case Collecting => 4
    case Dispatching => 5
    case Responded(_) => 6
    case Tallied(_) => 7
    case Closing(_) => 8
    case _ => 9
  }

  lemma StagesAdvance(s: Stack, a: Action, i: nat)
    requires Enabled(s, a) && i < |s.requests|
    ensures i < |Apply(s, a).requests|
    ensures var r, r' := s.requests[i], Apply(s, a).requests[i];
      && r'.ip == r.ip && r'.at == r.at
      && (r' == r || Rank(r.stage) < Rank(r'.stage))
      && (AtRest(r) ==> r' == r)
      && (r.stage.Limited? <==> r'.stage.Limited?)
  {
  }

  lemma {:induction false} FeasiblePrefix(start: Stack, acts: seq<Action>, k: nat)
    requires Feasible(start, acts) && k <= |acts|
    ensures Feasible(start, acts[..k])
  {
    if k < |acts| {
      FeasiblePrefix(start, acts[..|acts| - 1], k);
      assert acts[..|acts| - 1][..k] == acts[..k];
    } else {
      assert acts[..k] == acts;
    }
  }

  lemma {:induction false} PastTheLimiter(start: Stack, acts: seq<Action>, i: nat, j: nat)
    requires Feasible(start, acts) && j < |acts| && acts[j] == TryAcquire(i)
    ensures i < |Run(start, acts).requests| && !Run(start, acts).requests[i].stage.PastLimiter?
  {
    var n := |acts| - 1;
    if j < n {
      PastTheLimiter(start, acts[..n], i, j);
      StagesAdvance(Run(start, acts[..n]), acts[n], i);
    }
  }

  /** No request tries for a permit twice, so each future that ends returns the one it took. */
  lemma AcquiresOnce(start: Stack, acts: seq<Action>, i: nat, j: nat, k: nat)
    requires Feasible(start, acts) && j < k < |acts| && acts[j] == TryAcquire(i)
    ensures acts[k] != TryAcquire(i)
  {
    FeasiblePrefix(start, acts, k + 1);
    assert acts[..k + 1][..k] == acts[..k];
    PastTheLimiter(start, acts[..k], i, j);
  }

  // ----- Layered admission -----

  /** The action is request `i`'s own. */
  predicate Names(a: Action, i: nat) {
    Moves(a) && a.i == i
  }

  /** Actions of request `i` after its arrival. */
  function Steps(acts: seq<Action>, i: nat): nat {
    if acts == [] then 0
    else Steps(acts[..|acts| - 1], i) + (if Names(acts[|acts| - 1], i) then 1 else 0)
  }

  /** Permits that actions of request `i` took out of the semaphore. */
  function Taken(start: Stack, acts: seq<Action>, i: nat): int
    requires Feasible(start, acts)
  {
    if acts == [] then 0
    else
      var prior, a := acts[..|acts| - 1], acts[|acts| - 1];
      var s := Run(start, prior);
      Taken(start, prior, i) + (if Names(a, i) && Apply(s, a).free < s.free then s.free - Apply(s, a).free else 0)
  }

  /** Permits that actions of request `i` put back. */
  function Returned(start: Stack, acts: seq<Action>, i: nat): int
    requires Feasible(start, acts)
  {
    if acts == [] then 0
    else
      var prior, a := acts[..|acts| - 1], acts[|acts| - 1];
      var s := Run(start, prior);
      Returned(start, prior, i) + (if Names(a, i) && Apply(s, a).free > s.free then Apply(s, a).free - s.free else 0)
  }

  /** Action `k` is request `i` trying for a permit, and `full` says if all were then in use. */
  ghost predicate TriesAt(start: Stack, acts: seq<Action>, i: nat, k: nat, full: bool) {
    && k < |acts| && acts[k] == TryAcquire(i) && Feasible(start, acts[..k])
    && (Forwarded(Run(start, acts[..k])) == Run(start, acts[..k]).maxConcurrent <==> full)
  }

  /** How the steps of request `i` account for the stage it is in. */
  ghost predicate Accounted(start: Stack, acts: seq<Action>, i: nat)
    requires Feasible(start, acts)
  {
    var s := Run(start, acts);
    if i >= |s.requests| || s.requests[i].stage.Limited? || s.requests[i].stage.PastLimiter? then
      Steps(acts, i) == 0 && Taken(start, acts, i) == Returned(start, acts, i) == 0
    else if s.requests[i].stage.Capped? then
      && Steps(acts, i) == 1 && Taken(start, acts, i) == Returned(start, acts, i) == 0
      && exists k :: TriesAt(start, acts, i, k, true)
    else
      && Taken(start, acts, i) == 1 && Taken(start, acts, i) - Returned(start, acts, i) == HoldsPermit(s.requests[i])
      && exists k :: TriesAt(start, acts, i, k, false)
  }

  lemma TriesStill(start: Stack, acts: seq<Action>, i: nat, k: nat, full: bool)
    requires acts != [] && TriesAt(start, acts[..|acts| - 1], i, k, full)
    ensures TriesAt(start, acts, i, k, full)
  {
    assert acts[..|acts| - 1][..k] == acts[..k];
  }

  /** What one own step does: the first is the try, and each changes the permits as it changes the stage. */
  lemma OwnStep(s: Stack, a: Action)
    requires Enabled(s, a) && Moves(a) && PermitsAgree(s)
    ensures var r, r' := s.requests[a.i], Apply(s, a).requests[a.i];
      && s.free - Apply(s, a).free == HoldsPermit(r') - HoldsPermit(r)
      && !r.stage.Limited? && !r.stage.Capped?
      && (a == TryAcquire(a.i) <==> r.stage.PastLimiter?)
      && !r'.stage.Limited? && !r'.stage.PastLimiter?
      && (r'.stage.Capped? <==> r.stage.PastLimiter? && Forwarded(s) == s.maxConcurrent)
      && (r.stage.PastLimiter? && !r'.stage.Capped? ==> HoldsPermit(r') == 1)
      && (!r.stage.PastLimiter? ==> HoldsPermit(r) == 1)
  {
  }

  lemma AccountedByOther(start: Stack, acts: seq<Action>, i: nat)
    requires Feasible(start, acts) && acts != [] && !Names(acts[|acts| - 1], i)
    requires Accounted(start, acts[..|acts| - 1], i)
    ensures Accounted(start, acts, i)
  {
    var prior, a := acts[..|acts| - 1], acts[|acts| - 1];
    var s := Run(start, prior);
    if i < |s.requests| {
      assert Apply(s, a).requests[i] == s.requests[i];
      forall k, full | TriesAt(start, prior, i, k, full) ensures TriesAt(start, acts, i, k, full) {
        TriesStill(start, acts, i, k, full);
      }
    }
  }

  lemma AccountedByOwn(start: Stack, acts: seq<Action>, i: nat)
    requires Feasible(start, acts) && acts != [] && Names(acts[|acts| - 1], i)
    requires PermitsAgree(Run(start, acts[..|acts| - 1]))
    requires Accounted(start, acts[..|acts| - 1], i)
    ensures Accounted(start, acts, i)
  {
    var n := |acts| - 1;
    var s, a := Run(start, acts[..n]), acts[n];
    OwnStep(s, a);
    if s.requests[i].stage.PastLimiter? {
      assert TriesAt(start, acts, i, n, Forwarded(s) == s.maxConcurrent);
    } else {
      var k :| TriesAt(start, acts[..n], i, k, false);
      TriesStill(start, acts, i, k, false);
    }
  }

  /**
   * Layered admission, in every run and for every request. Answered 429, or about to try: it
   * has made no step and touched no permit. Answered 503: its one step was a try that found all
   * permits in use. Otherwise its try found one free, it took exactly that one, and what
   * it has put back since is that permit if it no longer holds it, and nothing if it does.
   */
  lemma {:induction false} LayeredAdmission(maxConcurrent: nat, rate: nat, acts: seq<Action>, i: nat)
    requires Feasible(Start(maxConcurrent, rate), acts)
    ensures Accounted(Start(maxConcurrent, rate), acts, i)
  {
    if acts != [] {
      var prior := acts[..|acts| - 1];
      LayeredAdmission(maxConcurrent, rate, prior, i);
      LedgerRun(maxConcurrent, rate, prior);
      if Names(acts[|acts| - 1], i) {
        AccountedByOwn(Start(maxConcurrent, rate), acts, i);
      } else {
        AccountedByOther(Start(maxConcurrent, rate), acts, i);
      }
    }
  }
}
