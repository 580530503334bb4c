/**
 * The accept loop, its connection tasks and the shutdown drain, as a step system:
 * one atomic operation on shared state is one action, and actions interleave freely.
 */
module AcceptLoop {
  import opened Lists

  /** Where a spawned connection task is. Its permit is dropped last, on leaving `Finishing`. */
  datatype Task = Serving | OwesNotify | Finishing | Done

  /** How the drain ended. */
  datatype Outcome = NothingToDrain | EmptiedEarly | Notified | TimedOut

  /** Where the accept loop is: up to `Incremented` it still accepts, from `Stopped` on it drains. */
  datatype Pc =
    | Accepting | Counted | Filtered | Permitted | Incremented
    | Stopped | Settled | Signalled | Registered | Rechecked | Waiting | Woken
    | Returned(outcome: Outcome)

  datatype Server = Server(
    maxConnections: nat,
    free: int,                  // permits in the connection semaphore
    inFlight: int,
    stored: bool,               // the one notification a tokio Notify can hold
    pc: Pc,
    tasks: seq<Task>,           // in spawn order
    accepted: nat,
    rejectedIp: nat,
    dropped: nat,               // history: sockets dropped at the connection limit
    emptiedWhileAccepting: bool // history: in_flight went from 1 to 0 before the loop stopped
  )

  datatype Action =
    | Accept | RejectIp | PassFilter | DropAtLimit | AcquirePermit | Increment | Spawn
    | Shutdown | Settle | Signal | LoadRemaining | Recheck | FirstPoll | Resume | Timeout
    | Decrement(task: nat) | NotifyOne(task: nat) | Release(task: nat)

  function Start(maxConnections: nat): Server {
    Server(maxConnections, maxConnections, 0, false, Accepting, [], 0, 0, 0, false)
  }

  predicate AcceptsStill(pc: Pc) {
    pc.Accepting? || pc.Counted? || pc.Filtered? || pc.Permitted? || pc.Incremented?
  }

  predicate At(s: Server, i: nat, t: Task) {
    i < |s.tasks| && s.tasks[i] == t
  }

  predicate Enabled(s: Server, a: Action) {
    match a
    case Accept => s.pc.Accepting?
    case RejectIp => s.pc.Counted?
    case PassFilter => s.pc.Counted?
    case DropAtLimit => s.pc.Filtered? && s.free == 0
    case AcquirePermit => s.pc.Filtered? && s.free > 0
    case Increment => s.pc.Permitted?
    case Spawn => s.pc.Incremented?
    case Shutdown => s.pc.Accepting?
    case Settle => s.pc.Stopped?
    case Signal => s.pc.Settled?
    case LoadRemaining => s.pc.Signalled?
    case Recheck => s.pc.Registered?
    case FirstPoll => s.pc.Rechecked?
    case Resume => s.pc.Woken?
    case Timeout => s.pc.Waiting? || s.pc.Woken?
    case Decrement(i) => At(s, i, Serving)
    case NotifyOne(i) => At(s, i, OwesNotify)
    case Release(i) => At(s, i, Finishing)
  }

  function Apply(s: Server, a: Action): Server
    requires Enabled(s, a)
  {
    match a
    case Accept => s.(pc := Counted, accepted := s.accepted + 1)
    case RejectIp => s.(pc := Accepting, rejectedIp := s.rejectedIp + 1)
    case PassFilter => s.(pc := Filtered)
    case DropAtLimit => s.(pc := Accepting, dropped := s.dropped + 1)
    case AcquirePermit => s.(pc := Permitted, free := s.free - 1)
    case Increment => s.(pc := Incremented, inFlight := s.inFlight + 1)
    case Spawn => s.(pc := Accepting, tasks := s.tasks + [Serving])
    case Shutdown => s.(pc := Stopped)
    case Settle => s.(pc := Settled)      // the optional 100 ms sleep changes nothing shared
    case Signal => s.(pc := Signalled)
    // Creating the Notified future registers nothing: only its first poll does.
    case LoadRemaining => s.(pc := if s.inFlight > 0 then Registered else Returned(NothingToDrain))
    case Recheck => s.(pc := if s.inFlight > 0 then Rechecked else Returned(EmptiedEarly))
    case FirstPoll => if s.stored then s.(pc := Returned(Notified), stored := false) else s.(pc := Waiting)
    case Resume => s.(pc := Returned(Notified))
    // Dropping a future that was notified and not polled since passes the notification on.
    case Timeout => s.(pc := Returned(TimedOut), stored := s.stored || s.pc.Woken?)
    case Decrement(i) =>
      var last := s.inFlight == 1;
      s.(inFlight := s.inFlight - 1,
         tasks := s.tasks[i := if last then OwesNotify else Finishing],
         emptiedWhileAccepting := s.emptiedWhileAccepting || (last && AcceptsStill(s.pc)))
    case NotifyOne(i) =>
      var t := s.(tasks := s.tasks[i := Finishing]);
      if s.pc.Waiting? then t.(pc := Woken) else t.(stored := true)
    case Release(i) => s.(tasks := s.tasks[i := Done], free := s.free + 1)
  }

  predicate Feasible(s: Server, acts: seq<Action>)
    decreases |acts|, 0
  {
    acts == [] || (Feasible(s, acts[..|acts| - 1]) && Enabled(Run(s, acts[..|acts| - 1]), acts[|acts| - 1]))
  }

  function Run(s: Server, acts: seq<Action>): Server
    requires Feasible(s, acts)
    decreases |acts|, 1
  {
    if acts == [] then s else Apply(Run(s, acts[..|acts| - 1]), acts[|acts| - 1])
  }

  ghost predicate Reachable(s: Server) {
    exists max: nat, acts :: Feasible(Start(max), acts) && Run(Start(max), acts) == s
  }

  // ----- Accounting -----

  function IsServing(t: Task): int { if t.Serving? then 1 else 0 }
  function IsOwing(t: Task): int { if t.OwesNotify? then 1 else 0 }
  function HoldsPermit(t: Task): int { if t.Done? then 0 else 1 }

  /** Tasks spawned and not yet past their `fetch_sub`. */
  function ServingTasks(s: Server): int { Sum(s.tasks, IsServing) }
  function OwingTasks(s: Server): int { Sum(s.tasks, IsOwing) }

  /** Permits in use, including one the loop has acquired and not yet handed to a task. */
  function PermitsHeld(s: Server): int {
    Sum(s.tasks, HoldsPermit) + (if s.pc.Permitted? || s.pc.Incremented? then 1 else 0)
  }

  /** A connection the loop is still deciding about. */
  function Undecided(pc: Pc): nat {
    if AcceptsStill(pc) && !pc.Accepting? then 1 else 0
  }

  ghost predicate InFlightBalanced(s: Server) {
    s.inFlight == ServingTasks(s) + (if s.pc.Incremented? then 1 else 0)
  }

  ghost predicate PermitsBalanced(s: Server) {
    s.free >= 0 && s.free + PermitsHeld(s) == s.maxConnections
  }

  ghost predicate Balanced(s: Server) {
    && InFlightBalanced(s)
    && PermitsBalanced(s)
    && s.accepted == s.rejectedIp + s.dropped + |s.tasks| + Undecided(s.pc)
  }

  /** How one action changes a weight summed over the tasks. */
  function Delta(s: Server, a: Action, w: Task -> int): int
    requires Enabled(s, a)
  {
    match a
    case Spawn => w(Serving)
    case Decrement(i) => w(if s.inFlight == 1 then OwesNotify else Finishing) - w(Serving)
    case NotifyOne(i) => w(Finishing) - w(OwesNotify)
    case Release(i) => w(Done) - w(Finishing)
    case _ => 0
  }

  lemma SumStep(s: Server, a: Action, w: Task -> int)
    requires Enabled(s, a)
    ensures Sum(Apply(s, a).tasks, w) == Sum(s.tasks, w) + Delta(s, a, w)
  {
    if a.Spawn? {
      SumAppend(s.tasks, Serving, w);
    } else if a.Decrement? || a.NotifyOne? || a.Release? {
      SumUpdate(s.tasks, a.task, Apply(s, a).tasks[a.task], w);
    }
  }

  lemma BalancedStep(s: Server, a: Action)
    requires Balanced(s) && Enabled(s, a)
    ensures Balanced(Apply(s, a))
  {
    InFlightBalancedStep(s, a);
    PermitsBalancedStep(s, a);
  }

  lemma InFlightBalancedStep(s: Server, a: Action)
    requires InFlightBalanced(s) && Enabled(s, a)
    ensures InFlightBalanced(Apply(s, a))
  {
    SumStep(s, a, IsServing);
  }

  lemma PermitsBalancedStep(s: Server, a: Action)
    requires PermitsBalanced(s) && Enabled(s, a)
    ensures PermitsBalanced(Apply(s, a))
  {
    SumStep(s, a, HoldsPermit);
  }

  // ----- The drain -----

  /** No wake-up is lost: an emptied server always has a notification stored or owed. */
  ghost predicate WakeUpPending(s: Server) {
    && (s.pc.Rechecked? && s.inFlight == 0 ==> s.stored || OwingTasks(s) > 0)
    && (s.pc.Waiting? && s.inFlight == 0 ==> OwingTasks(s) > 0)
  }

  /** A drain that returned on reading a zero counter still sees zero. */
  ghost predicate ZeroStays(s: Server) {
    s.pc == Returned(NothingToDrain) || s.pc == Returned(EmptiedEarly) ==> s.inFlight == 0
  }

  /** Every notification that the drain has received or may yet receive speaks the truth. */
  ghost predicate Truthful(s: Server) {
    if AcceptsStill(s.pc) then !s.stored && OwingTasks(s) == 0
    else s.stored || OwingTasks(s) > 0 || s.pc.Woken? || s.pc == Returned(Notified) ==> s.inFlight == 0
  }

  lemma OwingStep(s: Server, a: Action)
    requires Enabled(s, a)
    ensures OwingTasks(Apply(s, a)) == OwingTasks(s)
              + (if a.Decrement? && s.inFlight == 1 then 1 else 0)
              - (if a.NotifyOne? then 1 else 0)
    ensures OwingTasks(s) >= 0
    ensures a.NotifyOne? ==> OwingTasks(s) > 0
  {
    SumNonNegative(s.tasks, IsOwing);
    SumStep(s, a, IsOwing);
  }

  /** `Balanced` keeps the counter from going below zero, or up once the loop has stopped. */
  lemma InFlightStep(s: Server, a: Action)
    requires Balanced(s) && Enabled(s, a)
    ensures 0 <= s.inFlight
    ensures a.Decrement? ==> s.inFlight > 0
    ensures !AcceptsStill(s.pc) ==> Apply(s, a).inFlight <= s.inFlight && !AcceptsStill(Apply(s, a).pc)
  {
    SumNonNegative(s.tasks, IsServing);
  }

  lemma WakeUpStep(s: Server, a: Action)
    requires Balanced(s) && WakeUpPending(s) && Enabled(s, a)
    ensures WakeUpPending(Apply(s, a))
  {
    OwingStep(s, a);
    InFlightStep(s, a);
  }

  lemma TruthfulStep(s: Server, a: Action)
    requires Balanced(s) && Truthful(s) && Enabled(s, a)
    ensures !Apply(s, a).emptiedWhileAccepting || !AcceptsStill(s.pc) ==> Truthful(Apply(s, a))
  {
    OwingStep(s, a);
    InFlightStep(s, a);
  }

  ghost predicate Inv(s: Server) {
    && Balanced(s)
    && WakeUpPending(s)
    && ZeroStays(s)
    && (s.emptiedWhileAccepting || Truthful(s))
  }

  lemma InvStep(s: Server, a: Action)
    requires Inv(s) && Enabled(s, a)
    ensures Inv(Apply(s, a))
  {
    BalancedStep(s, a);
    WakeUpStep(s, a);
    InFlightStep(s, a);
    if !s.emptiedWhileAccepting {
      TruthfulStep(s, a);
    }
  }

  lemma {:induction false} InvRun(s: Server, acts: seq<Action>)
    requires Inv(s) && Feasible(s, acts)
    ensures Inv(Run(s, acts))
  {
    if acts != [] {
      InvRun(s, acts[..|acts| - 1]);
      InvStep(Run(s, acts[..|acts| - 1]), acts[|acts| - 1]);
    }
  }

  lemma ReachableInv(s: Server)
    requires Reachable(s)
    ensures Inv(s)
  {
    var max: nat, acts :| Feasible(Start(max), acts) && Run(Start(max), acts) == s;
    InvRun(Start(max), acts);
  }

  // ----- Results over every run -----

  /** Connection accounting in every reachable state. */
  lemma ConnectionAccounting(s: Server)
    requires Reachable(s)
    ensures s.inFlight == ServingTasks(s) + (if s.pc.Incremented? then 1 else 0)
    ensures 0 <= s.inFlight <= PermitsHeld(s) <= s.maxConnections
    ensures s.free + PermitsHeld(s) == s.maxConnections
    ensures s.pc.Accepting? || !AcceptsStill(s.pc) ==> s.accepted == s.rejectedIp + s.dropped + |s.tasks|
  {
    ReachableInv(s);
    SumNonNegative(s.tasks, IsServing);
    SumMonotone(s.tasks, IsServing, HoldsPermit);
  }

  /** Once the loop has stopped, `in_flight` never rises again. */
  lemma {:induction false} InFlightOnlyFalls(s: Server, acts: seq<Action>)
    requires Inv(s) && !AcceptsStill(s.pc) && Feasible(s, acts)
    ensures Run(s, acts).inFlight <= s.inFlight && !AcceptsStill(Run(s, acts).pc)
  {
    if acts != [] {
      var prior := acts[..|acts| - 1];
      InFlightOnlyFalls(s, prior);
      InvRun(s, prior);
      InFlightStep(Run(s, prior), acts[|acts| - 1]);
    }
  }

  /** No lost wake-up: a drain waiting on an empty server has a task about to wake it. */
  lemma NoLostWakeUp(s: Server) returns (i: nat)
    requires Reachable(s) && s.pc.Waiting? && s.inFlight == 0
    ensures Enabled(s, NotifyOne(i)) && Apply(s, NotifyOne(i)).pc.Woken?
  {
    ReachableInv(s);
    i := SumWitness(s.tasks, IsOwing);
  }

  /**
   * A waiting drain can always complete: let the open connections finish, and the last of
   * them wakes it with nothing in flight.
   */
  lemma DrainCanComplete(s: Server) returns (acts: seq<Action>)
    requires Reachable(s) && s.pc.Waiting?
    ensures Feasible(s, acts) && Run(s, acts).pc == Returned(Notified) && Run(s, acts).inFlight == 0
  {
    acts := [];
    ReachableInv(s);
    while Run(s, acts).inFlight != 0
      invariant Feasible(s, acts) && Inv(Run(s, acts)) && Run(s, acts).pc.Waiting?
      decreases ServingTasks(Run(s, acts))
    {
      var now := Run(s, acts);
      SumNonNegative(now.tasks, IsServing);
      var i := SumWitness(now.tasks, IsServing);
      InvStep(now, Decrement(i));
      SumStep(now, Decrement(i), IsServing);
      acts := Then(s, acts, Decrement(i));
    }
    var i := SumWitness(Run(s, acts).tasks, IsOwing);
    acts := Then(s, acts, NotifyOne(i));
    acts := Then(s, acts, Resume);
  }

  /** One action more. */
  lemma Then(s: Server, acts: seq<Action>, a: Action) returns (longer: seq<Action>)
    requires Feasible(s, acts) && Enabled(Run(s, acts), a)
    ensures longer == acts + [a] && Feasible(s, longer) && Run(s, longer) == Apply(Run(s, acts), a)
  {
    longer := acts + [a];
    assert longer[..|acts|] == acts;
  }

  // ----- The drain cannot hang -----

  /** Steps a task has left. */
  function TaskLeft(t: Task): int {
    match t
    case Serving => 3
    case OwesNotify => 2
    case Finishing => 1
    case Done => 0
  }

  /** Steps the drain has left, at most. */
  function PcLeft(pc: Pc): nat {
    match pc
    case Stopped => 7
    case Settled => 6
    case Signalled => 5
    case Registered => 4
    case Rechecked => 3
    case Waiting => 2
    case Woken => 1
    case _ => 0
  }

  function StepsLeft(s: Server): int {
    Sum(s.tasks, TaskLeft) + PcLeft(s.pc)
  }

  lemma StepsLeftFalls(s: Server, a: Action)
    requires Enabled(s, a) && !AcceptsStill(s.pc)
    ensures StepsLeft(Apply(s, a)) < StepsLeft(s) && !AcceptsStill(Apply(s, a).pc)
  {
    SumStep(s, a, TaskLeft);
  }

  /** Once the loop has stopped every run is short, whatever the scheduler does. */
  lemma {:induction false} DrainIsBounded(s: Server, acts: seq<Action>)
    requires !AcceptsStill(s.pc) && Feasible(s, acts)
    ensures |acts| + StepsLeft(Run(s, acts)) <= StepsLeft(s) && !AcceptsStill(Run(s, acts).pc)
    ensures |acts| <= StepsLeft(s)
  {
    if acts != [] {
      DrainIsBounded(s, acts[..|acts| - 1]);
      StepsLeftFalls(Run(s, acts[..|acts| - 1]), acts[|acts| - 1]);
    }
    SumNonNegative(Run(s, acts).tasks, TaskLeft);
  }

  /** A drain that has not returned can move without its timeout. */
  lemma DrainNotStuck(s: Server) returns (a: Action)
    requires Inv(s) && !AcceptsStill(s.pc) && !s.pc.Returned?
    ensures Enabled(s, a) && a != Timeout
  {
    match s.pc {
      case Stopped => a := Settle;
      case Settled => a := Signal;
      case Signalled => a := LoadRemaining;
      case Registered => a := Recheck;
      case Rechecked => a := FirstPoll;
      case Woken => a := Resume;
      case Waiting =>
        SumNonNegative(s.tasks, IsServing);
        if s.inFlight > 0 {
          var i := SumWitness(s.tasks, IsServing);
          a := Decrement(i);
        } else {
          var i := SumWitness(s.tasks, IsOwing);
          a := NotifyOne(i);
        }
    }
  }

  /** A connection that is not over can move; so where none can, all permits are back. */
  lemma TasksNotStuck(s: Server)
    requires Inv(s) && !AcceptsStill(s.pc) && forall a :: Enabled(s, a) ==> a == Timeout
    ensures forall t <- s.tasks :: t.Done?
    ensures s.free == s.maxConnections
  {
    forall i: nat | i < |s.tasks| ensures s.tasks[i].Done? {
      assert !Enabled(s, Decrement(i)) && !Enabled(s, NotifyOne(i)) && !Enabled(s, Release(i));
    }
    SumNonNegative(s.tasks, HoldsPermit);
    if Sum(s.tasks, HoldsPermit) > 0 {
      var i := SumWitness(s.tasks, HoldsPermit);
    }
  }

  lemma {:induction false} TimesOutOnlyByTimeout(s: Server, acts: seq<Action>)
    requires Feasible(s, acts) && Timeout !in acts && s.pc != Returned(TimedOut)
    ensures Run(s, acts).pc != Returned(TimedOut)
  {
    if acts != [] {
      TimesOutOnlyByTimeout(s, acts[..|acts| - 1]);
    }
  }

  /**
   * The drain is inevitable. After the loop stops, however the steps interleave, a run in which
   * nothing but the timeout is left to do has ended the drain, and unless it took the timeout
   * it ended it otherwise; by then every connection is over and every permit back; and every
   * run comes to that point.
   */
  lemma DrainInevitable(s: Server, acts: seq<Action>)
    requires Reachable(s) && !AcceptsStill(s.pc) && s.pc != Returned(TimedOut) && Feasible(s, acts)
    requires forall a :: Enabled(Run(s, acts), a) ==> a == Timeout
    ensures Run(s, acts).pc.Returned?
    ensures Timeout !in acts ==> Run(s, acts).pc != Returned(TimedOut)
    ensures forall t <- Run(s, acts).tasks :: t.Done?
    ensures Run(s, acts).free == Run(s, acts).maxConnections
    ensures |acts| <= StepsLeft(s)
  {
    ReachableInv(s);
    InvRun(s, acts);
    DrainIsBounded(s, acts);
    TasksNotStuck(Run(s, acts));
    if Timeout !in acts {
      TimesOutOnlyByTimeout(s, acts);
    }
    if !Run(s, acts).pc.Returned? {
      var a := DrainNotStuck(Run(s, acts));
    }
  }

  /**
   * Leaving the drain otherwise than by timeout means nothing is in flight, provided that
   * a drain ended by a notification had no 1-to-0 transition before the loop stopped.
   */
  lemma DrainOutcome(s: Server)
    requires Reachable(s) && s.pc.Returned? && !s.pc.outcome.TimedOut?
    requires s.pc.outcome.Notified? ==> !s.emptiedWhileAccepting
    ensures s.inFlight == 0
  {
    ReachableInv(s);
  }

  /** A notification left over from serving, while connections are still open. */
  ghost predicate Stale(s: Server) {
    s.inFlight > 0 && (s.stored || OwingTasks(s) > 0)
  }

  /** Every way of continuing from `s` that ends in a notified drain ends with nothing in flight. */
  ghost predicate DrainSoundFrom(s: Server) {
    forall acts :: Feasible(s, acts) && Run(s, acts).pc == Returned(Notified) ==> Run(s, acts).inFlight == 0
  }

  lemma {:induction false} TruthfulRun(s: Server, acts: seq<Action>)
    requires Inv(s) && Truthful(s) && !AcceptsStill(s.pc) && Feasible(s, acts)
    ensures Truthful(Run(s, acts)) && !AcceptsStill(Run(s, acts).pc)
  {
    if acts != [] {
      var prior := acts[..|acts| - 1];
      TruthfulRun(s, prior);
      InvRun(s, prior);
      TruthfulStep(Run(s, prior), acts[|acts| - 1]);
      InFlightStep(Run(s, prior), acts[|acts| - 1]);
    }
  }

  /** A run that ends the drain on the stale notification, connections still open. */
  lemma StaleRun(s: Server) returns (acts: seq<Action>)
    requires s.pc.Stopped? && Stale(s)
    ensures Feasible(s, acts) && Run(s, acts).pc == Returned(Notified) && Run(s, acts).inFlight == s.inFlight
  {
    acts := [];
    if !s.stored {
      var i := SumWitness(s.tasks, IsOwing);
      acts := Then(s, acts, NotifyOne(i));
    }
    acts := ThenQuickDrain(s, acts);
  }

  /** With connections open and a notification stored, the drain returns at its first poll. */
  lemma ThenQuickDrain(s: Server, acts: seq<Action>) returns (longer: seq<Action>)
    requires Feasible(s, acts)
    requires var now := Run(s, acts); now.pc.Stopped? && now.stored && now.inFlight > 0
    ensures Feasible(s, longer)
    ensures Run(s, longer) == Run(s, acts).(pc := Returned(Notified), stored := false)
  {
    longer := Then(s, acts, Settle);
    longer := Then(s, longer, Signal);
    longer := Then(s, longer, LoadRemaining);
    longer := Then(s, longer, Recheck);
    longer := Then(s, longer, FirstPoll);
  }

  /** Exactly when the drain can be trusted: as the loop stops, nothing stale is stored or owed. */
  lemma DrainSoundIff(s: Server)
    requires Reachable(s) && s.pc.Stopped?
    ensures DrainSoundFrom(s) <==> !Stale(s)
  {
    ReachableInv(s);
    if Stale(s) {
      var acts := StaleRun(s);
    } else {
      SumNonNegative(s.tasks, IsOwing);
      SumNonNegative(s.tasks, IsServing);
      forall acts | Feasible(s, acts) && Run(s, acts).pc == Returned(Notified)
        ensures Run(s, acts).inFlight == 0
      {
        TruthfulRun(s, acts);
      }
    }
  }

  /** The condition is needed: one connection comes and goes, a second is open, and the drain returns at once. */
  lemma StaleNotificationReachable() returns (s: Server)
    ensures Reachable(s) && s.pc == Returned(Notified) && s.inFlight == 1
  {
    s := Start(2);
    assert Feasible(s, []) && Run(s, []) == s;
    s := ReachConnect(s);
    s := ReachStep(s, Decrement(0));
    s := ReachStep(s, NotifyOne(0));
    s := ReachConnect(s);
    s := ReachStep(s, Shutdown);
    var max: nat, acts :| Feasible(Start(max), acts) && Run(Start(max), acts) == s;
    acts := ThenQuickDrain(Start(max), acts);
    s := Run(Start(max), acts);
  }

  lemma ReachStep(s: Server, a: Action) returns (t: Server)
    requires Reachable(s) && Enabled(s, a)
    ensures t == Apply(s, a) && Reachable(t)
  {
    t := Apply(s, a);
    var max: nat, acts :| Feasible(Start(max), acts) && Run(Start(max), acts) == s;
    var longer := Then(Start(max), acts, a);
  }

  lemma ReachConnect(s: Server) returns (t: Server)
    requires Reachable(s) && s.pc.Accepting? && s.free > 0
    ensures Reachable(t)
    ensures t == s.(accepted := s.accepted + 1, free := s.free - 1,
                    inFlight := s.inFlight + 1, tasks := s.tasks + [Serving])
  {
    t := ReachStep(s, Accept);
    t := ReachStep(t, PassFilter);
    t := ReachStep(t, AcquirePermit);
    t := ReachStep(t, Increment);
    t := ReachStep(t, Spawn);
  }
}
