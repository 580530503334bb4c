/**
 * The accept loop told from its actions: which connections are dropped, what the connection
 * counters count, how each drain ended, and that open connections cannot hold a shutdown up.
 */
module ServerHistory {
  import opened Lists
  import opened AcceptLoop

  lemma {:induction false} FeasiblePrefix(s: Server, acts: seq<Action>, k: nat)
    requires Feasible(s, acts) && k <= |acts|
    ensures Feasible(s, acts[..k])
  {
    if k < |acts| {
      FeasiblePrefix(s, acts[..|acts| - 1], k);
      assert acts[..|acts| - 1][..k] == acts[..k];
    } else {
      assert acts[..k] == acts;
    }
  }

  // ----- Dropped only at the limit -----

  /** Connections whose task still holds its permit. */
  function Open(s: Server): set<nat> {
    set i: nat | i < |s.tasks| && s.tasks[i] != Done
  }

  /** With a connection at hand: it is dropped if as many are open as the limit allows, and served otherwise. */
  lemma DroppedIffFull(s: Server)
    requires Reachable(s) && s.pc.Filtered?
    ensures Enabled(s, DropAtLimit) <==> |Open(s)| == s.maxConnections
    ensures Enabled(s, AcquirePermit) <==> |Open(s)| < s.maxConnections
    ensures |Open(s)| <= s.maxConnections
  {
    ReachableInv(s);
    ConnectionAccounting(s);
    SumIsSize(s.tasks, HoldsPermit, Open(s));
  }

  lemma {:induction false} LimitFixed(max: nat, acts: seq<Action>)
    requires Feasible(Start(max), acts)
    ensures Run(Start(max), acts).maxConnections == max
  {
    if acts != [] {
      LimitFixed(max, acts[..|acts| - 1]);
    }
  }

  /** Over runs: whenever a connection was dropped the server was full, and whenever one was let in it was not. */
  lemma DropsWereAtLimit(max: nat, acts: seq<Action>, k: nat)
    requires Feasible(Start(max), acts) && k < |acts|
    ensures Feasible(Start(max), acts[..k])
    ensures acts[k] == DropAtLimit ==> |Open(Run(Start(max), acts[..k]))| == max
    ensures acts[k] == AcquirePermit ==> |Open(Run(Start(max), acts[..k]))| < max
  {
    FeasiblePrefix(Start(max), acts, k);
    FeasiblePrefix(Start(max), acts, k + 1);
    assert acts[..k + 1][..k] == acts[..k];
    LimitFixed(max, acts[..k]);
    var s := Run(Start(max), acts[..k]);
    if s.pc.Filtered? {
      DroppedIffFull(s);
    }
  }

  /** Whatever the address filter says of a connection at hand, and whatever the limit, the loop comes back to accept. */
  lemma LoopComesBack(s: Server, blocked: bool) returns (acts: seq<Action>)
    requires Reachable(s) && s.pc.Counted?
    ensures Feasible(s, acts) && Run(s, acts).pc.Accepting?
    ensures var t := Run(s, acts);
      if blocked then t.rejectedIp == s.rejectedIp + 1 && t.tasks == s.tasks
      else if |Open(s)| == s.maxConnections then t.dropped == s.dropped + 1 && t.tasks == s.tasks
      else t.tasks == s.tasks + [Serving] && t.inFlight == s.inFlight + 1
  {
    acts := [];
    if blocked {
      acts := Then(s, acts, RejectIp);
    } else {
      acts := Then(s, acts, PassFilter);
      var filtered := ReachStep(s, PassFilter);
      DroppedIffFull(filtered);
      if |Open(s)| == s.maxConnections {
        acts := Then(s, acts, DropAtLimit);
      } else {
        acts := ThenServe(s, acts);
      }
    }
  }

  lemma ThenServe(s: Server, acts: seq<Action>) returns (longer: seq<Action>)
    requires Feasible(s, acts) && Enabled(Run(s, acts), AcquirePermit)
    ensures Feasible(s, longer) && Run(s, longer).pc.Accepting?
    ensures Run(s, longer).tasks == Run(s, acts).tasks + [Serving] && Run(s, longer).inFlight == Run(s, acts).inFlight + 1
  {
    longer := Then(s, acts, AcquirePermit);
    longer := Then(s, longer, Increment);
    longer := Then(s, longer, Spawn);
  }

  // ----- The connection counters -----

  function Count(acts: seq<Action>, a: Action): nat {
    if acts == [] then 0
    else Count(acts[..|acts| - 1], a) + (if acts[|acts| - 1] == a then 1 else 0)
  }

  /** Every counter and every task stands for its own kind of action. */
  lemma {:induction false} TrafficFromActions(max: nat, acts: seq<Action>)
    requires Feasible(Start(max), acts)
    ensures var s := Run(Start(max), acts);
      && s.accepted == Count(acts, Accept)
      && s.rejectedIp == Count(acts, RejectIp)
      && s.dropped == Count(acts, DropAtLimit)
      && |s.tasks| == Count(acts, Spawn)
  {
    if acts != [] {
      TrafficFromActions(max, acts[..|acts| - 1]);
      TrafficStep(Run(Start(max), acts[..|acts| - 1]), acts[|acts| - 1]);
    }
  }

  function One(b: bool): nat { if b then 1 else 0 }

  lemma TrafficStep(s: Server, a: Action)
    requires Enabled(s, a)
    ensures var t := Apply(s, a);
      && t.accepted == s.accepted + One(a == Accept)
      && t.rejectedIp == s.rejectedIp + One(a == RejectIp)
      && t.dropped == s.dropped + One(a == DropAtLimit)
      && |t.tasks| == |s.tasks| + One(a == Spawn)
  {
  }

  // ----- How the drain ended -----

  /** The drain loaded the counter, and it was zero. */
  predicate LoadedZero(s: Server, acts: seq<Action>)
    requires Feasible(s, acts)
  {
    acts != [] && var prior := acts[..|acts| - 1];
    LoadedZero(s, prior) || (acts[|acts| - 1] == LoadRemaining && Run(s, prior).inFlight == 0)
  }

  /** The drain read it again, and now it was zero. */
  predicate RecheckedZero(s: Server, acts: seq<Action>)
    requires Feasible(s, acts)
  {
    acts != [] && var prior := acts[..|acts| - 1];
    RecheckedZero(s, prior) || (acts[|acts| - 1] == Recheck && Run(s, prior).inFlight == 0)
  }

  /** The drain first polled its future with a notification stored. */
  predicate PolledStored(s: Server, acts: seq<Action>)
    requires Feasible(s, acts)
  {
    acts != [] && var prior := acts[..|acts| - 1];
    PolledStored(s, prior) || (acts[|acts| - 1] == FirstPoll && Run(s, prior).stored)
  }

  /** The outcome says how the drain ended, and how it ended says the outcome. */
  predicate OutcomeTold(start: Server, acts: seq<Action>)
    requires Feasible(start, acts)
  {
    var pc := Run(start, acts).pc;
    && (pc == Returned(NothingToDrain) <==> LoadedZero(start, acts))
    && (pc == Returned(EmptiedEarly) <==> RecheckedZero(start, acts))
    && (pc == Returned(TimedOut) <==> Timeout in acts)
    && (pc == Returned(Notified) <==> PolledStored(start, acts) || Resume in acts)
  }

  lemma {:induction false} OutcomeIsHistory(max: nat, acts: seq<Action>)
    requires Feasible(Start(max), acts)
    ensures OutcomeTold(Start(max), acts)
  {
    if acts != [] {
      OutcomeIsHistory(max, acts[..|acts| - 1]);
      NeverNegative(max, acts[..|acts| - 1]);
      OutcomeToldStep(Start(max), acts);
    }
  }

  lemma NeverNegative(max: nat, acts: seq<Action>)
    requires Feasible(Start(max), acts)
    ensures Run(Start(max), acts).inFlight >= 0
  {
    ConnectionAccounting(Run(Start(max), acts));
    SumNonNegative(Run(Start(max), acts).tasks, IsServing);
  }

  lemma OutcomeToldStep(start: Server, acts: seq<Action>)
    requires Feasible(start, acts) && acts != []
    requires OutcomeTold(start, acts[..|acts| - 1]) && Run(start, acts[..|acts| - 1]).inFlight >= 0
    ensures OutcomeTold(start, acts)
  {
    var prior, a := acts[..|acts| - 1], acts[|acts| - 1];
    MemberStep(acts, Timeout);
    MemberStep(acts, Resume);
    OutcomeStep(Run(start, prior), a);
  }

  lemma MemberStep(acts: seq<Action>, x: Action)
    requires acts != []
    ensures x in acts <==> x in acts[..|acts| - 1] || x == acts[|acts| - 1]
  {
    assert acts == acts[..|acts| - 1] + [acts[|acts| - 1]];
  }

  /** A drain that has returned stays so, and returns only by one of the five ways. */
  lemma OutcomeStep(s: Server, a: Action)
    requires Enabled(s, a) && s.inFlight >= 0
    ensures var pc := Apply(s, a).pc;
      if s.pc.Returned? then
        pc == s.pc && a != LoadRemaining && a != Recheck && a != FirstPoll && a != Timeout && a != Resume
      else
        && (pc == Returned(NothingToDrain) <==> a == LoadRemaining && s.inFlight == 0)
        && (pc == Returned(EmptiedEarly) <==> a == Recheck && s.inFlight == 0)
        && (pc == Returned(TimedOut) <==> a == Timeout)
        && (pc == Returned(Notified) <==> (a == FirstPoll && s.stored) || a == Resume)
  {
  }

  // ----- No notification is lost -----

  /** A notification was sent after the drain last took one. */
  predicate Unread(acts: seq<Action>) {
    acts != [] && var a := acts[|acts| - 1];
    if a.NotifyOne? then true
    else if a == FirstPoll || a == Resume then false
    else Unread(acts[..|acts| - 1])
  }

  predicate Notifies(acts: seq<Action>) {
    exists k :: 0 <= k < |acts| && acts[k].NotifyOne?
  }

  /** In every run it is stored, or has woken the drain, until the drain takes it; and none comes from nowhere. */
  lemma {:induction false} NotificationKept(max: nat, acts: seq<Action>)
    requires Feasible(Start(max), acts)
    ensures Unread(acts) ==> Run(Start(max), acts).stored || Run(Start(max), acts).pc.Woken?
    ensures Run(Start(max), acts).stored || Run(Start(max), acts).pc.Woken? ==> Notifies(acts)
  {
    if acts != [] {
      NotificationKept(max, acts[..|acts| - 1]);
      assert acts == acts[..|acts| - 1] + [acts[|acts| - 1]];
      NotificationStep(Run(Start(max), acts[..|acts| - 1]), acts[|acts| - 1]);
    }
  }

  lemma NotificationStep(s: Server, a: Action)
    requires Enabled(s, a)
    ensures var t := Apply(s, a);
      && (a.NotifyOne? ==> t.stored || t.pc.Woken?)
      && (!a.NotifyOne? && (t.stored || t.pc.Woken?) ==> s.stored || s.pc.Woken?)
      && (a != FirstPoll && a != Resume && (s.stored || s.pc.Woken?) ==> t.stored || t.pc.Woken?)
  {
  }

  // ----- Shutdown is never held up -----

  /** Something the accept loop itself does, as opposed to a connection task. */
  predicate OwnAction(a: Action) {
    !a.Decrement? && !a.NotifyOne? && !a.Release?
  }

  /** What the drain does next; where it waits, it lets its deadline pass. */
  function NextOwn(pc: Pc): Action
    requires !AcceptsStill(pc) && !pc.Returned?
  {
    match pc
    case Stopped => Settle
    case Settled => Signal
    case Signalled => LoadRemaining
    case Registered => Recheck
    case Rechecked => FirstPoll
    case _ => Timeout
  }

  lemma OwnStep(s: Server)
    requires !AcceptsStill(s.pc) && !s.pc.Returned?
    ensures var a := NextOwn(s.pc);
      && Enabled(s, a) && OwnAction(a) && Apply(s, a).tasks == s.tasks
      && !AcceptsStill(Apply(s, a).pc) && PcLeft(Apply(s, a).pc) < PcLeft(s.pc)
      && (s.pc.Waiting? ==> Apply(s, a).pc == Returned(TimedOut))
  {
  }

  /**
   * From every state after the loop has stopped, the drain can end by a few steps of its own,
   * with every connection still where it is: its deadline is always there to be taken.
   */
  lemma ShutdownNotHeldUp(s: Server) returns (acts: seq<Action>)
    requires !AcceptsStill(s.pc)
    ensures Feasible(s, acts) && |acts| <= 7 && forall a <- acts :: OwnAction(a)
    ensures Run(s, acts).pc.Returned? && Run(s, acts).tasks == s.tasks
  {
    acts := [];
    while !Run(s, acts).pc.Returned?
      invariant Feasible(s, acts) && forall a <- acts :: OwnAction(a)
      invariant Run(s, acts).tasks == s.tasks && !AcceptsStill(Run(s, acts).pc)
      invariant |acts| + PcLeft(Run(s, acts).pc) <= 7
      decreases PcLeft(Run(s, acts).pc)
    {
      OwnStep(Run(s, acts));
      acts := Then(s, acts, NextOwn(Run(s, acts).pc));
    }
  }

  /** A server with nothing open when it stops returns without waiting, however the steps interleave. */
  lemma {:induction false} IdleServerDoesNotWait(s: Server, acts: seq<Action>)
    requires Reachable(s) && s.pc.Stopped? && s.inFlight == 0 && Feasible(s, acts)
    ensures var pc := Run(s, acts).pc;
      pc.Stopped? || pc.Settled? || pc.Signalled? || pc == Returned(NothingToDrain)
    ensures Run(s, acts).inFlight == 0
  {
    ReachableInv(s);
    if acts != [] {
      var prior := acts[..|acts| - 1];
      IdleServerDoesNotWait(s, prior);
      InvRun(s, prior);
      SumNonNegative(Run(s, prior).tasks, IsServing);
    }
  }
}
