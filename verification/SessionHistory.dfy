/**
 * Sessions under concurrency, told from the actions alone: when each call read the clock, what
 * its statements found, and so exactly which gets find their session.
 */
module SessionHistory {
  import opened Lists
  import opened Sessions
  import R = SessionRaces

  type Action = R.Action

  /** The seconds that have passed. */
  function Ticks(acts: seq<Action>): nat {
    if acts == [] then 0
    else Ticks(acts[..|acts| - 1]) + (if acts[|acts| - 1].Tick? then acts[|acts| - 1].secs else 0)
  }

  /** How many of its own steps client `i` has made. */
  function Steps(acts: seq<Action>, i: nat): nat {
    if acts == [] then 0
    else Steps(acts[..|acts| - 1], i) + (if acts[|acts| - 1] == R.Step(i) then 1 else 0)
  }

  /** The position of step `m` of client `i`, counted from zero. */
  function StepAt(acts: seq<Action>, i: nat, m: nat): (k: nat)
    requires m < Steps(acts, i)
    ensures k < |acts| && acts[k] == R.Step(i) && Steps(acts[..k], i) == m
  {
    var prior := acts[..|acts| - 1];
    if m < Steps(prior, i) then
      var k := StepAt(prior, i, m);
      assert prior[..k] == acts[..k];
      k
    else |acts| - 1
  }

  /** When client `i` read the clock: creates and gets do so in their first step. */
  function ReadTime(acts: seq<Action>, i: nat): nat
    requires Steps(acts, i) > 0
  {
    Ticks(acts[..StepAt(acts, i, 0)])
  }

  lemma StepAtStays(acts: seq<Action>, i: nat, m: nat)
    requires acts != [] && m < Steps(acts[..|acts| - 1], i)
    ensures StepAt(acts, i, m) == StepAt(acts[..|acts| - 1], i, m)
    ensures acts[..StepAt(acts, i, m)] == acts[..|acts| - 1][..StepAt(acts, i, m)]
  {
  }

  lemma {:induction false} ClockIsTicks(acts: seq<Action>)
    requires R.Feasible(R.START, acts)
    ensures R.Run(R.START, acts).clock == Ticks(acts)
  {
    if acts != [] {
      ClockIsTicks(acts[..|acts| - 1]);
    }
  }

  lemma {:induction false} FeasiblePrefix(acts: seq<Action>, k: nat)
    requires R.Feasible(R.START, acts) && k <= |acts|
    ensures R.Feasible(R.START, acts[..k])
  {
    if k < |acts| {
      FeasiblePrefix(acts[..|acts| - 1], k);
      assert acts[..|acts| - 1][..k] == acts[..k];
    } else {
      assert acts[..k] == acts;
    }
  }

  /** The table as the second step of client `i` finds it. */
  ghost function TableSeen(acts: seq<Action>, i: nat): Table
    requires R.Feasible(R.START, acts) && Steps(acts, i) > 1
  {
    FeasiblePrefix(acts, StepAt(acts, i, 1));
    R.Run(R.START, acts[..StepAt(acts, i, 1)]).table
  }

  // ----- A client is the history of its own steps -----

  ghost predicate CreateTold(acts: seq<Action>, i: nat, token: string, stage: R.CreateStage)
    requires R.Feasible(R.START, acts)
  {
    var n := Steps(acts, i);
    match stage
    case Unread => n == 0
    case Ready(now) => n == 1 && now == ReadTime(acts, i)
    case Inserted(now) => n == 2 && now == ReadTime(acts, i) && token !in TableSeen(acts, i)
    case Failed(now) => n == 2 && now == ReadTime(acts, i) && token in TableSeen(acts, i)
  }

  ghost predicate GetTold(acts: seq<Action>, i: nat, token: string, stage: R.GetStage)
    requires R.Feasible(R.START, acts)
  {
    var n := Steps(acts, i);
    match stage
    case Waiting => n == 0
    case Clocked(now) => n == 1 && now == ReadTime(acts, i)
    case Found(now, session) =>
      n == 2 && now == ReadTime(acts, i) && Select(TableSeen(acts, i), token, now) == Some(session)
    case Missing(now) => n == 2 && now == ReadTime(acts, i) && Select(TableSeen(acts, i), token, now) == None
    case Returned(now, result) =>
      n == 3 && now == ReadTime(acts, i) && Select(TableSeen(acts, i), token, now) == result
  }

  /**
   * How far client `i` is, when it read the clock, and what its statement found: a create
   * succeeds if its token was free, and a get returns what its SELECT found.
   */
  ghost predicate Told(acts: seq<Action>, i: nat, c: R.Client)
    requires R.Feasible(R.START, acts)
  {
    match c
    case Creator(token, _, stage) => CreateTold(acts, i, token, stage)
    case Getter(token, stage) => GetTold(acts, i, token, stage)
    case Remover(_, removed) => Steps(acts, i) == if removed then 1 else 0
  }

  lemma SameTelling(acts: seq<Action>, i: nat)
    requires R.Feasible(R.START, acts) && acts != []
    ensures var prior := acts[..|acts| - 1];
      && (Steps(prior, i) > 0 ==> ReadTime(acts, i) == ReadTime(prior, i))
      && (Steps(prior, i) > 1 ==> TableSeen(acts, i) == TableSeen(prior, i))
  {
    var prior := acts[..|acts| - 1];
    if Steps(prior, i) > 0 {
      StepAtStays(acts, i, 0);
    }
    if Steps(prior, i) > 1 {
      StepAtStays(acts, i, 1);
    }
  }

  lemma ToldByOther(acts: seq<Action>, i: nat, c: R.Client)
    requires R.Feasible(R.START, acts) && acts != [] && acts[|acts| - 1] != R.Step(i)
    requires Told(acts[..|acts| - 1], i, c)
    ensures Told(acts, i, c)
  {
    SameTelling(acts, i);
  }

  lemma ToldByOwn(acts: seq<Action>, i: nat)
    requires R.Feasible(R.START, acts) && acts != [] && acts[|acts| - 1] == R.Step(i)
    requires Told(acts[..|acts| - 1], i, R.Run(R.START, acts[..|acts| - 1]).clients[i])
    ensures Told(acts, i, R.Run(R.START, acts).clients[i])
  {
    SameTelling(acts, i);
    ClockIsTicks(acts[..|acts| - 1]);
  }

  lemma {:induction false} NoStepsBefore(acts: seq<Action>, i: nat)
    requires R.Feasible(R.START, acts) && i >= |R.Run(R.START, acts).clients|
    ensures Steps(acts, i) == 0
  {
    if acts != [] {
      NoStepsBefore(acts[..|acts| - 1], i);
    }
  }

  lemma {:induction false} ClientIsHistory(acts: seq<Action>, i: nat)
    requires R.Feasible(R.START, acts) && i < |R.Run(R.START, acts).clients|
    ensures Told(acts, i, R.Run(R.START, acts).clients[i])
  {
    var prior, a := acts[..|acts| - 1], acts[|acts| - 1];
    var w := R.Run(R.START, prior);
    if i == |w.clients| {
      NoStepsBefore(prior, i);
    } else {
      ClientIsHistory(prior, i);
      if a == R.Step(i) {
        ToldByOwn(acts, i);
      } else {
        assert R.Apply(w, a).clients[i] == w.clients[i];
        ToldByOther(acts, i, w.clients[i]);
      }
    }
  }

  /** A get returns a session if and only if its SELECT found it, whatever happened to the row since. */
  lemma GetReturnsWhatSelectFound(acts: seq<Action>, i: nat, session: Session)
    requires R.Feasible(R.START, acts) && i < |R.Run(R.START, acts).clients|
    requires R.Run(R.START, acts).clients[i].Getter? && Steps(acts, i) == 3
    ensures var c := R.Run(R.START, acts).clients[i];
      && c.get.Returned?
      && (c.get.result == Some(session)
          <==> Select(TableSeen(acts, i), c.token, ReadTime(acts, i)) == Some(session))
  {
    ClientIsHistory(acts, i);
  }

  // ----- Readings lie within the call -----

  lemma {:induction false} TicksGrow(acts: seq<Action>, j: nat)
    requires j <= |acts|
    ensures Ticks(acts[..j]) <= Ticks(acts)
  {
    if j < |acts| {
      TicksGrow(acts[..|acts| - 1], j);
      assert acts[..|acts| - 1][..j] == acts[..j];
    } else {
      assert acts[..j] == acts;
    }
  }

  lemma {:induction false} ClientsGrow(acts: seq<Action>, j: nat)
    requires R.Feasible(R.START, acts) && j <= |acts| && R.Feasible(R.START, acts[..j])
    ensures |R.Run(R.START, acts[..j]).clients| <= |R.Run(R.START, acts).clients|
  {
    if j < |acts| {
      assert acts[..|acts| - 1][..j] == acts[..j];
      ClientsGrow(acts[..|acts| - 1], j);
    } else {
      assert acts[..j] == acts;
    }
  }

  /** A client reads the clock after it joined: no earlier than at any moment before that, and no later than now. */
  lemma ReadsWithinCall(acts: seq<Action>, i: nat, j: nat)
    requires R.Feasible(R.START, acts) && Steps(acts, i) > 0
    requires j <= |acts| && R.Feasible(R.START, acts[..j]) && |R.Run(R.START, acts[..j]).clients| <= i
    ensures Ticks(acts[..j]) <= ReadTime(acts, i) <= Ticks(acts) == R.Run(R.START, acts).clock
  {
    var k := StepAt(acts, i, 0);
    FeasiblePrefix(acts, k + 1);
    assert acts[..k + 1][..k] == acts[..k];
    if k < j {
      assert acts[..j][..k] == acts[..k];
      ClientsGrow(acts[..j], k);
    }
    assert acts[..k][..j] == acts[..j];
    TicksGrow(acts[..k], j);
    TicksGrow(acts, k);
    ClockIsTicks(acts);
  }

  // ----- Which gets find their session -----

  lemma ChangeIsByReader(acts: seq<Action>, token: string)
    requires R.Feasible(R.START, acts) && acts != []
    ensures var w, a := R.Run(R.START, acts[..|acts| - 1]), acts[|acts| - 1];
      var change := R.ChangeBy(w, a, token);
      change.Wrote? ==>
        && Steps(acts, change.writer) > 0 && change.reading == ReadTime(acts, change.writer)
        && change.writer < |w.clients| && w.clients[change.writer].token == token
  {
    var w, a := R.Run(R.START, acts[..|acts| - 1]), acts[|acts| - 1];
    if R.ChangeBy(w, a, token).Wrote? {
      ClientIsHistory(acts[..|acts| - 1], a.i);
      SameTelling(acts, a.i);
    }
  }

  lemma {:induction false} WriterRead(acts: seq<Action>, token: string)
    requires R.Feasible(R.START, acts) && R.LastChange(R.START, acts, token).Wrote?
    ensures var change := R.LastChange(R.START, acts, token);
      Steps(acts, change.writer) > 0 && change.reading == ReadTime(acts, change.writer)
  {
    var prior, a := acts[..|acts| - 1], acts[|acts| - 1];
    if R.ChangeBy(R.Run(R.START, prior), a, token).Untouched? {
      WriterRead(prior, token);
      SameTelling(acts, R.LastChange(R.START, prior, token).writer);
    } else {
      ChangeIsByReader(acts, token);
    }
  }

  /**
   * What every get sees, exactly and from the actions alone: through any interleaving, its
   * SELECT finds the session if and only if the last statement to change the row was the INSERT
   * or UPDATE of a call that read the clock less than 3600 seconds before this get did.
   */
  lemma SelectFindsIff(acts: seq<Action>, i: nat)
    requires R.Feasible(R.START, acts)
    requires i < |R.Run(R.START, acts).clients| && R.Run(R.START, acts).clients[i].Getter? && Steps(acts, i) == 1
    ensures var w := R.Run(R.START, acts);
      var change := R.LastChange(R.START, acts, w.clients[i].token);
      && w.clients[i].get == R.Clocked(ReadTime(acts, i))
      && (change.Wrote? ==> Steps(acts, change.writer) > 0)
      && (R.Apply(w, R.Step(i)).clients[i].get.Found?
          <==> change.Wrote? && ReadTime(acts, i) < ReadTime(acts, change.writer) + 3600)
  {
    var token := R.Run(R.START, acts).clients[i].token;
    ClientIsHistory(acts, i);
    R.LastChangeDecides(R.START, acts, token, ReadTime(acts, i));
    if R.LastChange(R.START, acts, token).Wrote? {
      WriterRead(acts, token);
    }
  }
}
