/**
 * The counters as a reader of the actions alone would fill them in: what each request is
 * counted under follows from what happened to it, status for status.
 */
module RequestHistory {
  import opened Lists
  import opened RateLimiting
  import opened RequestLedger

  // ----- What happened to a request -----

  /** Request `i` was answered with this status, by its handler or by the processing timeout. */
  predicate Answered(acts: seq<Action>, i: nat, status: nat) {
    Respond(i, status) in acts || (status == 503 && Expire(i) in acts)
  }

  /** Request `i` was turned away with this status, by its declared length or while its body was read. */
  predicate TurnedAway(acts: seq<Action>, i: nat, status: nat) {
    RejectBody(i, status) in acts || (status == 413 && RejectLength(i) in acts)
  }

  predicate HasVerdict(stage: Stage) {
    stage.Responded? || stage.Tallied? || stage.Closing? || stage.Finished?
  }

  ghost predicate TellsEntry(acts: seq<Action>, i: nat, stage: Stage) {
    && (TryAcquire(i) in acts <==> !stage.Limited? && !stage.PastLimiter?)
    && (CountTotal(i) in acts <==>
        !stage.Limited? && !stage.PastLimiter? && !stage.Capped? && !stage.Admitted? && stage != Abandoned(false))
    && (CountActive(i) in acts <==> CountTotal(i) in acts && !stage.Counted?)
    && (Drop(i) in acts <==> stage.Abandoned?)
  }

  ghost predicate TellsAnswer(acts: seq<Action>, i: nat, stage: Stage) {
    && (forall status :: Respond(i, status) in acts <==> HasVerdict(stage) && stage.verdict == Handled(status))
    && (Expire(i) in acts <==> HasVerdict(stage) && stage.verdict == Expired)
    && (forall status :: TurnedAway(acts, i, status) <==> stage == Early(status))
    && (stage.Early? ==> stage.status == 413 || stage.status == 400)
  }

  ghost predicate TellsExit(acts: seq<Action>, i: nat, stage: Stage) {
    && (Tally(i) in acts <==> stage.Tallied? || stage.Closing? || stage.Finished?)
    && (UncountActive(i) in acts <==> stage.Closing? || stage.Finished?)
    && (Finish(i) in acts <==> stage.Finished?)
  }

  /** The stage of request `i` says what happened to it, and what happened to it says the stage. */
  ghost predicate Tells(acts: seq<Action>, i: nat, stage: Stage) {
    TellsEntry(acts, i, stage) && TellsAnswer(acts, i, stage) && TellsExit(acts, i, stage)
  }

  ghost predicate Unnamed(acts: seq<Action>, i: nat) {
    forall a <- acts :: !Names(a, i)
  }

  lemma MemberStep(acts: seq<Action>, x: Action)
    requires acts != []
    ensures x in acts <==> x in acts[..|acts| - 1] || x == acts[|acts| - 1]
  {
    assert acts == acts[..|acts| - 1] + [acts[|acts| - 1]];
  }

  lemma NothingTold(acts: seq<Action>, i: nat, stage: Stage)
    requires Unnamed(acts, i) && (stage.Limited? || stage.PastLimiter?)
    ensures Tells(acts, i, stage)
  {
    forall status ensures Respond(i, status) !in acts && !TurnedAway(acts, i, status) {
      assert Names(Respond(i, status), i) && Names(RejectBody(i, status), i) && Names(RejectLength(i), i);
    }
    assert Names(TryAcquire(i), i) && Names(CountTotal(i), i) && Names(CountActive(i), i) && Names(Drop(i), i);
    assert Names(Expire(i), i) && Names(Tally(i), i) && Names(UncountActive(i), i) && Names(Finish(i), i);
  }

  /** What others do says nothing about request `i`. */
  lemma TellsByOther(acts: seq<Action>, i: nat, stage: Stage)
    requires acts != [] && !Names(acts[|acts| - 1], i) && Tells(acts[..|acts| - 1], i, stage)
    ensures Tells(acts, i, stage)
  {
    var prior := acts[..|acts| - 1];
    forall x | Names(x, i) ensures x in acts <==> x in prior {
      MemberStep(acts, x);
    }
    forall status
      ensures Respond(i, status) in acts <==> Respond(i, status) in prior
      ensures TurnedAway(acts, i, status) <==> TurnedAway(prior, i, status)
    {
      assert Names(Respond(i, status), i) && Names(RejectBody(i, status), i) && Names(RejectLength(i), i);
    }
    assert Names(TryAcquire(i), i) && Names(CountTotal(i), i) && Names(CountActive(i), i) && Names(Drop(i), i);
    assert Names(Expire(i), i) && Names(Tally(i), i) && Names(UncountActive(i), i) && Names(Finish(i), i);
  }

  lemma EntryByOwn(acts: seq<Action>, i: nat, stage: Stage, permitFree: bool)
    requires acts != [] && Names(acts[|acts| - 1], i) && StageAllows(stage, acts[|acts| - 1])
    requires Tells(acts[..|acts| - 1], i, stage)
    ensures TellsEntry(acts, i, NextStage(stage, acts[|acts| - 1], permitFree))
  {
    MemberStep(acts, TryAcquire(i));
    MemberStep(acts, CountTotal(i));
    MemberStep(acts, CountActive(i));
    MemberStep(acts, Drop(i));
  }

  lemma ExitByOwn(acts: seq<Action>, i: nat, stage: Stage, permitFree: bool)
    requires acts != [] && Names(acts[|acts| - 1], i) && StageAllows(stage, acts[|acts| - 1])
    requires Tells(acts[..|acts| - 1], i, stage)
    ensures TellsExit(acts, i, NextStage(stage, acts[|acts| - 1], permitFree))
  {
    MemberStep(acts, Tally(i));
    MemberStep(acts, UncountActive(i));
    MemberStep(acts, Finish(i));
  }

  lemma AnswerByOwn(acts: seq<Action>, i: nat, stage: Stage, permitFree: bool)
    requires acts != [] && Names(acts[|acts| - 1], i) && StageAllows(stage, acts[|acts| - 1])
    requires Tells(acts[..|acts| - 1], i, stage)
    ensures TellsAnswer(acts, i, NextStage(stage, acts[|acts| - 1], permitFree))
  {
    var a, stage' := acts[|acts| - 1], NextStage(stage, acts[|acts| - 1], permitFree);
    MemberStep(acts, Expire(i));
    MemberStep(acts, RejectLength(i));
    forall status: nat
      ensures Respond(i, status) in acts <==> HasVerdict(stage') && stage'.verdict == Handled(status)
      ensures TurnedAway(acts, i, status) <==> stage' == Early(status)
    {
      MemberStep(acts, Respond(i, status));
      MemberStep(acts, RejectBody(i, status));
      assert TurnedAway(acts[..|acts| - 1], i, status) <==> stage == Early(status);
    }
  }

  lemma {:induction false} UnbornUnnamed(start: Stack, acts: seq<Action>, i: nat)
    requires Feasible(start, acts) && i >= |Run(start, acts).requests|
    ensures Unnamed(acts, i)
  {
    if acts != [] {
      UnbornUnnamed(start, acts[..|acts| - 1], i);
      forall a <- acts ensures !Names(a, i) {
        MemberStep(acts, a);
      }
    }
  }

  /** In every run the stage of a request is exactly the history of its own actions. */
  lemma {:induction false} StageIsHistory(start: Stack, acts: seq<Action>, i: nat)
    requires start.requests == [] && Feasible(start, acts) && i < |Run(start, acts).requests|
    ensures Tells(acts, i, Run(start, acts).requests[i].stage)
  {
    var prior, a := acts[..|acts| - 1], acts[|acts| - 1];
    var s := Run(start, prior);
    if i == |s.requests| {
      UnbornUnnamed(start, prior, i);
      NothingTold(prior, i, Apply(s, a).requests[i].stage);
      TellsByOther(acts, i, Apply(s, a).requests[i].stage);
    } else {
      StageIsHistory(start, prior, i);
      if Names(a, i) {
        EntryByOwn(acts, i, s.requests[i].stage, s.free > 0);
        AnswerByOwn(acts, i, s.requests[i].stage, s.free > 0);
        ExitByOwn(acts, i, s.requests[i].stage, s.free > 0);
      } else {
        assert Apply(s, a).requests[i] == s.requests[i];
        TellsByOther(acts, i, s.requests[i].stage);
      }
    }
  }

  // ----- The counters, from the actions alone -----

  ghost predicate Got2xx(acts: seq<Action>, i: nat) {
    Tally(i) in acts && exists status: nat :: Answered(acts, i, status) && status < 300
  }

  ghost predicate Got4xx(acts: seq<Action>, i: nat) {
    Tally(i) in acts && exists status: nat :: Answered(acts, i, status) && 300 <= status < 500
  }

  ghost predicate Got5xx(acts: seq<Action>, i: nat) {
    Tally(i) in acts && exists status: nat :: Answered(acts, i, status) && 500 <= status
  }

  /** What a told request contributes to the class counters. */
  lemma ClassesTold(acts: seq<Action>, i: nat, r: Request)
    requires Tells(acts, i, r.stage)
    ensures In2xx(r) == 1 <==> Got2xx(acts, i)
    ensures In4xx(r) == 1 <==> Got4xx(acts, i)
    ensures In5xx(r) == 1 <==> Got5xx(acts, i)
  {
    if HasVerdict(r.stage) {
      assert Answered(acts, i, StatusOf(r.stage.verdict));
      forall status | Answered(acts, i, status) ensures status == StatusOf(r.stage.verdict) {
      }
    }
  }

  lemma GaugesTold(acts: seq<Action>, i: nat, r: Request)
    requires Tells(acts, i, r.stage)
    ensures InTotal(r) == 1 <==> CountTotal(i) in acts
    ensures InActive(r) == 1 <==> CountActive(i) in acts && UncountActive(i) !in acts
    ensures InTimedOut(r) == 1 <==> Expire(i) in acts
  {
  }

  /**
   * The metrics of every run, from its actions alone: each class counter is the number of
   * requests that were tallied and had been answered with a status of that class, a timeout
   * counting as 503; the gauges are the requests counted, counted in and not out, and timed out.
   */
  lemma CountersFromActions(maxConcurrent: nat, rate: nat, acts: seq<Action>)
    requires Feasible(Start(maxConcurrent, rate), acts)
    ensures var s := Run(Start(maxConcurrent, rate), acts);
      var n := |s.requests|;
      && s.metrics.total == |set i: nat | i < n && CountTotal(i) in acts|
      && s.metrics.active == |set i: nat | i < n && CountActive(i) in acts && UncountActive(i) !in acts|
      && s.metrics.timedOut == |set i: nat | i < n && Expire(i) in acts|
      && s.metrics.ok2xx == |set i: nat | i < n && Got2xx(acts, i)|
      && s.metrics.err4xx == |set i: nat | i < n && Got4xx(acts, i)|
      && s.metrics.err5xx == |set i: nat | i < n && Got5xx(acts, i)|
  {
    LedgerRun(maxConcurrent, rate, acts);
    TotalFromActions(Start(maxConcurrent, rate), acts);
    ActiveFromActions(Start(maxConcurrent, rate), acts);
    TimeoutsFromActions(Start(maxConcurrent, rate), acts);
    Tallied2xx(Start(maxConcurrent, rate), acts);
    Tallied4xx(Start(maxConcurrent, rate), acts);
    Tallied5xx(Start(maxConcurrent, rate), acts);
  }

  lemma TotalFromActions(start: Stack, acts: seq<Action>)
    requires start.requests == [] && Feasible(start, acts)
    ensures var rs := Run(start, acts).requests;
      var n := |rs|;
      Sum(rs, InTotal) == |set i: nat | i < n && CountTotal(i) in acts|
  {
    var rs := Run(start, acts).requests;
    var n := |rs|;
    forall i: nat | i < n ensures InTotal(rs[i]) == 1 <==> CountTotal(i) in acts {
      StageIsHistory(start, acts, i);
      GaugesTold(acts, i, rs[i]);
    }
    SumIsSize(rs, InTotal, set i: nat | i < n && CountTotal(i) in acts);
  }

  lemma ActiveFromActions(start: Stack, acts: seq<Action>)
    requires start.requests == [] && Feasible(start, acts)
    ensures var rs := Run(start, acts).requests;
      var n := |rs|;
      Sum(rs, InActive) == |set i: nat | i < n && CountActive(i) in acts && UncountActive(i) !in acts|
  {
    var rs := Run(start, acts).requests;
    var n := |rs|;
    forall i: nat | i < n ensures InActive(rs[i]) == 1 <==> CountActive(i) in acts && UncountActive(i) !in acts {
      StageIsHistory(start, acts, i);
      GaugesTold(acts, i, rs[i]);
    }
    SumIsSize(rs, InActive, set i: nat | i < n && CountActive(i) in acts && UncountActive(i) !in acts);
  }

  lemma TimeoutsFromActions(start: Stack, acts: seq<Action>)
    requires start.requests == [] && Feasible(start, acts)
    ensures var rs := Run(start, acts).requests;
      var n := |rs|;
      Sum(rs, InTimedOut) == |set i: nat | i < n && Expire(i) in acts|
  {
    var rs := Run(start, acts).requests;
    var n := |rs|;
    forall i: nat | i < n ensures InTimedOut(rs[i]) == 1 <==> Expire(i) in acts {
      StageIsHistory(start, acts, i);
      GaugesTold(acts, i, rs[i]);
    }
    SumIsSize(rs, InTimedOut, set i: nat | i < n && Expire(i) in acts);
  }

  lemma Tallied2xx(start: Stack, acts: seq<Action>)
    requires start.requests == [] && Feasible(start, acts)
    ensures var rs := Run(start, acts).requests;
      var n := |rs|;
      Sum(rs, In2xx) == |set i: nat | i < n && Got2xx(acts, i)|
  {
    var rs := Run(start, acts).requests;
    var n := |rs|;
    forall i: nat | i < n ensures In2xx(rs[i]) == 1 <==> Got2xx(acts, i) {
      StageIsHistory(start, acts, i);
      ClassesTold(acts, i, rs[i]);
    }
    SumIsSize(rs, In2xx, set i: nat | i < n && Got2xx(acts, i));
  }

  lemma Tallied4xx(start: Stack, acts: seq<Action>)
    requires start.requests == [] && Feasible(start, acts)
    ensures var rs := Run(start, acts).requests;
      var n := |rs|;
      Sum(rs, In4xx) == |set i: nat | i < n && Got4xx(acts, i)|
  {
    var rs := Run(start, acts).requests;
    var n := |rs|;
    forall i: nat | i < n ensures In4xx(rs[i]) == 1 <==> Got4xx(acts, i) {
      StageIsHistory(start, acts, i);
      ClassesTold(acts, i, rs[i]);
    }
    SumIsSize(rs, In4xx, set i: nat | i < n && Got4xx(acts, i));
  }

  lemma Tallied5xx(start: Stack, acts: seq<Action>)
    requires start.requests == [] && Feasible(start, acts)
    ensures var rs := Run(start, acts).requests;
      var n := |rs|;
      Sum(rs, In5xx) == |set i: nat | i < n && Got5xx(acts, i)|
  {
    var rs := Run(start, acts).requests;
    var n := |rs|;
    forall i: nat | i < n ensures In5xx(rs[i]) == 1 <==> Got5xx(acts, i) {
      StageIsHistory(start, acts, i);
      ClassesTold(acts, i, rs[i]);
    }
    SumIsSize(rs, In5xx, set i: nat | i < n && Got5xx(acts, i));
  }

  // ----- Every way a request can end does happen -----

  /** The only request of a run makes one step. */
  lemma Moved(start: Stack, acts: seq<Action>, a: Action, stage: Stage) returns (longer: seq<Action>)
    requires Feasible(start, acts) && Run(start, acts).requests == [Request(V4(0), 0, stage)]
    requires Moves(a) && a.i == 0 && StageAllows(stage, a) && !a.TryAcquire?
    ensures longer == acts + [a] && Feasible(start, longer)
    ensures Run(start, longer).requests == [Request(V4(0), 0, NextStage(stage, a, true))]
  {
    longer := Then(start, acts, a);
  }

  lemma FirstAdmitted(maxConcurrent: nat, rate: nat) returns (acts: seq<Action>)
    requires maxConcurrent > 0 && rate > 0
    ensures Feasible(Start(maxConcurrent, rate), acts)
    ensures Run(Start(maxConcurrent, rate), acts).requests == [Request(V4(0), 0, Admitted)]
  {
    assert Feasible(Start(maxConcurrent, rate), []);
    assert Refilled(rate, FullBucket(rate, 0), 0) == Capacity(rate) >= NANOS;
    acts := Then(Start(maxConcurrent, rate), [], Arrive(V4(0), 0));
    acts := Then(Start(maxConcurrent, rate), acts, TryAcquire(0));
  }

  lemma FirstCollecting(maxConcurrent: nat, rate: nat) returns (acts: seq<Action>)
    requires maxConcurrent > 0 && rate > 0
    ensures Feasible(Start(maxConcurrent, rate), acts)
    ensures Run(Start(maxConcurrent, rate), acts).requests == [Request(V4(0), 0, Collecting)]
  {
    var start := Start(maxConcurrent, rate);
    acts := FirstAdmitted(maxConcurrent, rate);
    acts := Moved(start, acts, CountTotal(0), Admitted);
    acts := Moved(start, acts, CountActive(0), Counted);
    acts := Moved(start, acts, Collect(0), Active);
  }

  /** With a permit to take and a token in the bucket, a request can be answered with any status, or time out. */
  lemma AnyAnswer(maxConcurrent: nat, rate: nat, v: Verdict) returns (acts: seq<Action>)
    requires maxConcurrent > 0 && rate > 0
    ensures Feasible(Start(maxConcurrent, rate), acts)
    ensures Run(Start(maxConcurrent, rate), acts).requests == [Request(V4(0), 0, Finished(v))]
  {
    var start := Start(maxConcurrent, rate);
    acts := FirstCollecting(maxConcurrent, rate);
    acts := Moved(start, acts, Dispatch(0), Collecting);
    acts := Moved(start, acts, if v.Handled? then Respond(0, v.status) else Expire(0), Dispatching);
    acts := Moved(start, acts, Tally(0), Responded(v));
    acts := Moved(start, acts, UncountActive(0), Tallied(v));
    acts := Moved(start, acts, Finish(0), Closing(v));
  }

  /** It can also be turned away, or its future be dropped before it is polled, in its body or in its handler. */
  lemma AnyEarlyEnd(maxConcurrent: nat, rate: nat, end: Stage) returns (acts: seq<Action>)
    requires maxConcurrent > 0 && rate > 0
    requires end == Early(400) || end == Early(413) || end.Abandoned?
    ensures Feasible(Start(maxConcurrent, rate), acts)
    ensures Run(Start(maxConcurrent, rate), acts).requests == [Request(V4(0), 0, end)]
  {
    var start := Start(maxConcurrent, rate);
    if end == Abandoned(false) {
      acts := FirstAdmitted(maxConcurrent, rate);
      acts := Moved(start, acts, Drop(0), Admitted);
    } else {
      acts := FirstCollecting(maxConcurrent, rate);
      acts := Moved(start, acts, if end.Early? then RejectBody(0, end.status) else Drop(0), Collecting);
    }
  }

  /** A future is dropped in its handler too. */
  lemma DroppedInHandler(maxConcurrent: nat, rate: nat) returns (acts: seq<Action>)
    requires maxConcurrent > 0 && rate > 0
    ensures Feasible(Start(maxConcurrent, rate), acts) && Dispatch(0) in acts
    ensures Run(Start(maxConcurrent, rate), acts).requests == [Request(V4(0), 0, Abandoned(true))]
  {
    var start := Start(maxConcurrent, rate);
    acts := FirstCollecting(maxConcurrent, rate);
    acts := Moved(start, acts, Dispatch(0), Collecting);
    assert Dispatch(0) in acts;
    acts := Moved(start, acts, Drop(0), Dispatching);
  }

  /** And without a token, or without a permit, it is answered at once. */
  lemma FirstRefused(maxConcurrent: nat, rate: nat) returns (acts: seq<Action>)
    requires maxConcurrent == 0 || rate == 0
    ensures Feasible(Start(maxConcurrent, rate), acts)
    ensures Run(Start(maxConcurrent, rate), acts).requests
            == [Request(V4(0), 0, if rate == 0 then Limited else Capped)]
  {
    assert Feasible(Start(maxConcurrent, rate), []);
    assert Refilled(rate, FullBucket(rate, 0), 0) == Capacity(rate);
    acts := Then(Start(maxConcurrent, rate), [], Arrive(V4(0), 0));
    if rate > 0 {
      acts := Then(Start(maxConcurrent, rate), acts, TryAcquire(0));
    }
  }
}
