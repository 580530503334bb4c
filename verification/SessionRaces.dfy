/**
 * Sessions under concurrency: the statements of any number of creates, gets and removes,
 * and their readings of the clock, interleave freely.
 */
module SessionRaces {
  import opened Lists
  import opened Sessions

  datatype CreateStage = Unread | Ready(now: int) | Inserted(now: int) | Failed(now: int)
  datatype GetStage =
    | Waiting
    | Clocked(now: int)
    | Found(now: int, session: Session)
    | Missing(now: int)
    | Returned(now: int, result: Option<Session>)

  /** A call in progress, at the point its own statements have reached. */
  datatype Client =
    | Creator(token: string, session: Session, create: CreateStage)
    | Getter(token: string, get: GetStage)
    | Remover(token: string, removed: bool)

  datatype World = World(clock: int, table: Table, clients: seq<Client>)

  datatype Action = Tick(secs: nat) | Join(client: Client) | Step(i: nat)

  const START: World := World(0, map[], [])

  predicate IsNew(c: Client) {
    match c
    case Creator(_, _, stage) => stage.Unread?
    case Getter(_, stage) => stage.Waiting?
    case Remover(_, removed) => !removed
  }

  predicate IsOver(c: Client) {
    match c
    case Creator(_, _, stage) => stage.Inserted? || stage.Failed?
    case Getter(_, stage) => stage.Returned?
    case Remover(_, removed) => removed
  }

  /** Tokens are fresh UUIDs, so a new creator brings one that no other has. */
  predicate Enabled(w: World, a: Action) {
    match a
    case Tick(_) => true
    case Join(c) => IsNew(c) && (c.Creator? ==> forall k :: 0 <= k < |w.clients| && w.clients[k].Creator? ==> w.clients[k].token != c.token)
    case Step(i) => i < |w.clients| && !IsOver(w.clients[i])
  }

  /** The next statement, or clock reading, of a client: what it becomes, and the table. */
  function Next(c: Client, clock: int, t: Table): (Client, Table)
    requires !IsOver(c)
  {
    match c
    case Creator(token, session, Unread) => (c.(create := Ready(clock)), t)
    case Creator(token, session, Ready(now)) =>
      var inserted := Insert(t, token, Row(session, now + SESSION_TTL_SECS));
      if inserted.None? then (c.(create := Failed(now)), t) else (c.(create := Inserted(now)), inserted.value)
    case Getter(token, Waiting) => (c.(get := Clocked(clock)), t)
    case Getter(token, Clocked(now)) =>
      var found := Select(t, token, now);
      (c.(get := if found.Some? then Found(now, found.value) else Missing(now)), t)
    case Getter(token, Found(now, session)) =>
      (c.(get := Returned(now, Some(session))), Update(t, token, now + SESSION_TTL_SECS))
    case Getter(token, Missing(now)) => (c.(get := Returned(now, None)), Delete(t, token))
    case Remover(token, _) => (c.(removed := true), Delete(t, token))
  }

  function Apply(w: World, a: Action): World
    requires Enabled(w, a)
  {
    match a
    case Tick(secs) => w.(clock := w.clock + secs)
    case Join(c) => w.(clients := w.clients + [c])
    case Step(i) =>
      var (c, t) := Next(w.clients[i], w.clock, w.table);
      w.(table := t, clients := w.clients[i := c])
  }

  predicate Feasible(w: World, acts: seq<Action>)
    decreases |acts|, 0
  {
    acts == [] || (Feasible(w, acts[..|acts| - 1]) && Enabled(Run(w, acts[..|acts| - 1]), acts[|acts| - 1]))
  }

  function Run(w: World, acts: seq<Action>): World
    requires Feasible(w, acts)
    decreases |acts|, 1
  {
    if acts == [] then w else Apply(Run(w, acts[..|acts| - 1]), acts[|acts| - 1])
  }

  ghost predicate Reachable(w: World) {
    exists acts :: Feasible(START, acts) && Run(START, acts) == w
  }

  // ----- No resurrection -----

  ghost predicate DistinctCreators(w: World) {
    forall i, j :: 0 <= i < j < |w.clients| && w.clients[i].Creator? && w.clients[j].Creator? ==>
      w.clients[i].token != w.clients[j].token
  }

  /** The INSERT for this token is over and its row is not there. */
  ghost predicate Gone(w: World, token: string) {
    && token !in w.table
    && exists i :: 0 <= i < |w.clients| && w.clients[i].Creator? && w.clients[i].token == token && IsOver(w.clients[i])
  }

  /** The client at `i`, if it is a get of this token, has seen no session. */
  predicate SeesNothing(w: World, token: string, i: nat) {
    i < |w.clients| && w.clients[i].Getter? && w.clients[i].token == token ==>
      var stage := w.clients[i].get;
      !stage.Found? && !(stage.Returned? && stage.result.Some?)
  }

  lemma DistinctStep(w: World, a: Action)
    requires DistinctCreators(w) && Enabled(w, a)
    ensures DistinctCreators(Apply(w, a))
  {
    var w' := Apply(w, a);
    assert forall k :: 0 <= k < |w.clients| ==>
        w'.clients[k].Creator? == w.clients[k].Creator? && w'.clients[k].token == w.clients[k].token;
  }

  lemma GoneStep(w: World, token: string, a: Action)
    requires DistinctCreators(w) && Gone(w, token) && Enabled(w, a)
    ensures Gone(Apply(w, a), token)
  {
    var w' := Apply(w, a);
    var i :| 0 <= i < |w.clients| && w.clients[i].Creator? && w.clients[i].token == token && IsOver(w.clients[i]);
    assert w'.clients[i] == w.clients[i];
    if a.Step? && w.clients[a.i].Creator? {
      assert w.clients[a.i].token != token;
    }
  }

  lemma SeesNothingStep(w: World, token: string, i: nat, a: Action)
    requires token !in w.table && SeesNothing(w, token, i) && Enabled(w, a)
    ensures SeesNothing(Apply(w, a), token, i)
  {
    if a.Step? && a.i != i && i < |w.clients| {
      assert Apply(w, a).clients[i] == w.clients[i];
    }
  }

  /**
   * No resurrection: once a token's row is gone, by whichever client's DELETE, it stays gone
   * whatever interleaves, and no get whose SELECT is still to come returns a session.
   */
  lemma {:induction false} NoResurrection(w: World, token: string, i: nat, acts: seq<Action>)
    requires DistinctCreators(w) && Gone(w, token) && SeesNothing(w, token, i) && Feasible(w, acts)
    ensures DistinctCreators(Run(w, acts)) && Gone(Run(w, acts), token) && SeesNothing(Run(w, acts), token, i)
  {
    if acts != [] {
      var prior, a := acts[..|acts| - 1], acts[|acts| - 1];
      NoResurrection(w, token, i, prior);
      DistinctStep(Run(w, prior), a);
      GoneStep(Run(w, prior), token, a);
      SeesNothingStep(Run(w, prior), token, i, a);
    }
  }

  // ----- What an answer may be -----

  /** A create or an answering get, whose statement set the expiry from its reading of the clock. */
  predicate Anchors(c: Client) {
    match c
    case Creator(_, _, stage) => stage.Inserted?
    case Getter(_, stage) => stage.Returned? && stage.result.Some?
    case Remover(_, _) => false
  }

  function Reading(c: Client): int
    requires Anchors(c)
  {
    if c.Creator? then c.create.now else c.get.now
  }

  predicate AnchorsAt(w: World, token: string, k: nat) {
    k < |w.clients| && w.clients[k].token == token && Anchors(w.clients[k])
  }

  /**
   * `path` leads from the create that wrote `session` over answering gets of its token, each
   * a client of its own that read the clock less than the TTL after the one before it.
   */
  ghost predicate Chain(w: World, token: string, session: Session, path: seq<nat>) {
    && path != []
    && (forall m :: 0 <= m < |path| ==> AnchorsAt(w, token, path[m]))
    && w.clients[path[0]].Creator? && w.clients[path[0]].session == session
    && (forall m :: 0 < m < |path| ==>
          && w.clients[path[m]].Getter?
          && Reading(w.clients[path[m]]) < Reading(w.clients[path[m - 1]]) + SESSION_TTL_SECS)
    && (forall m, n :: 0 <= m < n < |path| ==> path[m] != path[n])
  }

  /** The reading from which the chain's last client set the expiry. */
  function LastReading(w: World, path: seq<nat>): int
    requires path != [] && path[|path| - 1] < |w.clients| && Anchors(w.clients[path[|path| - 1]])
  {
    Reading(w.clients[path[|path| - 1]])
  }

  /** A chain ends in the reading from which this row's expiry was set. */
  ghost predicate RowChained(w: World, token: string, row: Row) {
    exists path :: Chain(w, token, row.session, path) && row.expiresAt == LastReading(w, path) + SESSION_TTL_SECS
  }

  /** A chain of clients other than `i` ends less than the TTL before the reading `now`. */
  ghost predicate AnswerChained(w: World, token: string, session: Session, now: int, i: nat) {
    exists path :: Chain(w, token, session, path) && i !in path && now < LastReading(w, path) + SESSION_TTL_SECS
  }

  predicate Answers(c: Client, now: int, session: Session) {
    c.Getter? && (c.get == Found(now, session) || c.get == Returned(now, Some(session)))
  }

  ghost predicate RowsHonest(w: World) {
    forall token <- w.table :: RowChained(w, token, w.table[token])
  }

  ghost predicate AnswersHonest(w: World) {
    forall i: nat, now, session :: i < |w.clients| && Answers(w.clients[i], now, session) ==>
      AnswerChained(w, w.clients[i].token, session, now, i)
  }

  /** Clients whose call is over never change, so a chain, once there, lasts. */
  lemma ChainLasts(w: World, a: Action, token: string, session: Session, path: seq<nat>)
    requires Enabled(w, a) && Chain(w, token, session, path)
    ensures Chain(Apply(w, a), token, session, path)
    ensures LastReading(Apply(w, a), path) == LastReading(w, path)
  {
    var w' := Apply(w, a);
    forall m | 0 <= m < |path| ensures AnchorsAt(w', token, path[m]) && w'.clients[path[m]] == w.clients[path[m]] {
      assert AnchorsAt(w, token, path[m]);
    }
  }

  lemma RowChainLasts(w: World, a: Action, token: string, row: Row)
    requires Enabled(w, a) && RowChained(w, token, row)
    ensures RowChained(Apply(w, a), token, row)
  {
    var path :| Chain(w, token, row.session, path) && row.expiresAt == LastReading(w, path) + SESSION_TTL_SECS;
    ChainLasts(w, a, token, row.session, path);
  }

  lemma AnswerChainLasts(w: World, a: Action, token: string, session: Session, now: int, i: nat)
    requires Enabled(w, a) && AnswerChained(w, token, session, now, i)
    ensures AnswerChained(Apply(w, a), token, session, now, i)
  {
    var path :| Chain(w, token, session, path) && i !in path && now < LastReading(w, path) + SESSION_TTL_SECS;
    ChainLasts(w, a, token, session, path);
  }

  /** One create per token, so all chains of a token carry the same session. */
  lemma OneSession(w: World, token: string, s: Session, p: seq<nat>, s': Session, p': seq<nat>)
    requires DistinctCreators(w) && Chain(w, token, s, p) && Chain(w, token, s', p')
    ensures s == s'
  {
    assert AnchorsAt(w, token, p[0]) && AnchorsAt(w, token, p'[0]);
  }

  /** An answering get extends the chain that its SELECT found. */
  lemma ChainGrows(w: World, token: string, session: Session, path: seq<nat>, i: nat)
    requires Chain(w, token, session, path) && i !in path
    requires AnchorsAt(w, token, i) && w.clients[i].Getter?
    requires Reading(w.clients[i]) < LastReading(w, path) + SESSION_TTL_SECS
    ensures Chain(w, token, session, path + [i])
  {
    var longer := path + [i];
    forall m | 0 <= m < |longer| ensures AnchorsAt(w, token, longer[m]) {
      if m < |path| {
        assert AnchorsAt(w, token, path[m]);
      }
    }
    forall m | 0 < m < |longer|
      ensures w.clients[longer[m]].Getter?
      ensures Reading(w.clients[longer[m]]) < Reading(w.clients[longer[m - 1]]) + SESSION_TTL_SECS
    {
      if m < |path| {
        assert longer[m] == path[m] && longer[m - 1] == path[m - 1];
      }
    }
  }

  /** INSERT starts a chain. */
  lemma InsertChained(w: World, i: nat)
    requires Enabled(w, Step(i)) && w.clients[i].Creator? && w.clients[i].create.Ready?
    requires w.clients[i].token !in w.table
    ensures var w' := Apply(w, Step(i));
      w.clients[i].token in w'.table && RowChained(w', w.clients[i].token, w'.table[w.clients[i].token])
  {
    var w', c := Apply(w, Step(i)), w.clients[i];
    assert AnchorsAt(w', c.token, i);
    assert Chain(w', c.token, c.session, [i]);
  }

  /** What an UPDATE refreshes is the session that its own SELECT found. */
  lemma FoundIsRow(w: World, i: nat)
    requires DistinctCreators(w) && RowsHonest(w) && AnswersHonest(w)
    requires i < |w.clients| && w.clients[i].Getter? && w.clients[i].get.Found?
    requires w.clients[i].token in w.table
    ensures w.table[w.clients[i].token].session == w.clients[i].get.session
    ensures AnswerChained(w, w.clients[i].token, w.clients[i].get.session, w.clients[i].get.now, i)
  {
    var token, now, session := w.clients[i].token, w.clients[i].get.now, w.clients[i].get.session;
    assert Answers(w.clients[i], now, session);
    var row := w.table[token];
    assert RowChained(w, token, row);
    var path :| Chain(w, token, session, path) && i !in path && now < LastReading(w, path) + SESSION_TTL_SECS;
    var rowPath :| Chain(w, token, row.session, rowPath) && row.expiresAt == LastReading(w, rowPath) + SESSION_TTL_SECS;
    OneSession(w, token, session, path, row.session, rowPath);
  }

  /** UPDATE extends the chain behind the answer. */
  lemma UpdateChained(w: World, i: nat, session: Session, now: int)
    requires Enabled(w, Step(i)) && w.clients[i].Getter? && w.clients[i].get == Found(now, session)
    requires w.clients[i].token in w.table && w.table[w.clients[i].token].session == session
    requires AnswerChained(w, w.clients[i].token, session, now, i)
    ensures var w' := Apply(w, Step(i));
      w.clients[i].token in w'.table && RowChained(w', w.clients[i].token, w'.table[w.clients[i].token])
  {
    var w', token := Apply(w, Step(i)), w.clients[i].token;
    var path :| Chain(w, token, session, path) && i !in path && now < LastReading(w, path) + SESSION_TTL_SECS;
    ChainLasts(w, Step(i), token, session, path);
    ChainGrows(w', token, session, path, i);
    assert LastReading(w', path + [i]) == now;
  }

  lemma RowsStep(w: World, a: Action)
    requires DistinctCreators(w) && RowsHonest(w) && AnswersHonest(w) && Enabled(w, a)
    ensures RowsHonest(Apply(w, a))
  {
    var w' := Apply(w, a);
    forall token | token in w'.table ensures RowChained(w', token, w'.table[token]) {
      if token in w.table && w'.table[token] == w.table[token] {
        RowChainLasts(w, a, token, w.table[token]);
      } else if w.clients[a.i].Creator? {
        InsertChained(w, a.i);
      } else {
        FoundIsRow(w, a.i);
        UpdateChained(w, a.i, w.clients[a.i].get.session, w.clients[a.i].get.now);
      }
    }
  }

  lemma AnswersStep(w: World, a: Action)
    requires RowsHonest(w) && AnswersHonest(w) && Enabled(w, a)
    ensures AnswersHonest(Apply(w, a))
  {
    var w' := Apply(w, a);
    forall i: nat, now, session | i < |w'.clients| && Answers(w'.clients[i], now, session)
      ensures AnswerChained(w', w'.clients[i].token, session, now, i)
    {
      var c := w.clients[i];
      if !Answers(c, now, session) {
        assert a == Step(i) && c.get == Clocked(now) && Select(w.table, c.token, now) == Some(session);
        SelectChained(w, i, now);
      }
      AnswerChainLasts(w, a, c.token, session, now, i);
    }
  }

  /** What a SELECT finds is chained, and by others, for its own call is not over. */
  lemma SelectChained(w: World, i: nat, now: int)
    requires RowsHonest(w) && i < |w.clients| && !IsOver(w.clients[i])
    requires Select(w.table, w.clients[i].token, now).Some?
    ensures AnswerChained(w, w.clients[i].token, Select(w.table, w.clients[i].token, now).value, now, i)
  {
    var token := w.clients[i].token;
    var row := w.table[token];
    assert RowChained(w, token, row);
    var path :| Chain(w, token, row.session, path) && row.expiresAt == LastReading(w, path) + SESSION_TTL_SECS;
    forall m | 0 <= m < |path| ensures path[m] != i {
      assert AnchorsAt(w, token, path[m]);
    }
  }

  lemma {:induction false} HonestRun(acts: seq<Action>)
    requires Feasible(START, acts)
    ensures RowsHonest(Run(START, acts)) && AnswersHonest(Run(START, acts)) && DistinctCreators(Run(START, acts))
  {
    if acts != [] {
      var prior, a := acts[..|acts| - 1], acts[|acts| - 1];
      HonestRun(prior);
      RowsStep(Run(START, prior), a);
      AnswersStep(Run(START, prior), a);
      DistinctStep(Run(START, prior), a);
    }
  }

  /**
   * Under every interleaving, a session that a get returns is the one its token's create
   * wrote, and a chain of other answering gets leads from that create to this get in which
   * every reading of the clock is less than the TTL after the one before it.
   */
  lemma AnswersAreHonest(w: World, i: nat, now: int, session: Session)
    requires Reachable(w) && i < |w.clients| && w.clients[i].Getter?
    requires w.clients[i].get == Returned(now, Some(session))
    ensures AnswerChained(w, w.clients[i].token, session, now, i)
  {
    var acts :| Feasible(START, acts) && Run(START, acts) == w;
    HonestRun(acts);
    assert Answers(w.clients[i], now, session);
  }

  /** So each answering get prolongs a session by less than the TTL. */
  lemma {:induction false} ChainBound(w: World, token: string, session: Session, path: seq<nat>)
    requires Chain(w, token, session, path)
    ensures AnchorsAt(w, token, path[0])
    ensures LastReading(w, path) <= Reading(w.clients[path[0]]) + (|path| - 1) * SESSION_TTL_SECS
  {
    var n := |path| - 1;
    assert AnchorsAt(w, token, path[0]);
    if n > 0 {
      var shorter := path[..n];
      assert forall m :: 0 <= m < n ==> shorter[m] == path[m];
      forall m | 0 <= m < n ensures AnchorsAt(w, token, shorter[m]) {
        assert AnchorsAt(w, token, path[m]);
      }
      assert Chain(w, token, session, shorter);
      ChainBound(w, token, session, shorter);
    }
  }

  /** The same for a world that was reached: deleted for good, whatever follows. */
  lemma DeletedForGood(w: World, token: string, i: nat, acts: seq<Action>)
    requires Reachable(w) && Gone(w, token) && SeesNothing(w, token, i) && Feasible(w, acts)
    ensures token !in Run(w, acts).table && SeesNothing(Run(w, acts), token, i)
  {
    var before :| Feasible(START, before) && Run(START, before) == w;
    HonestRun(before);
    NoResurrection(w, token, i, acts);
  }

  /**
   * Logging out is final: once the DELETE of a remove has run on a token whose create is over,
   * the token is gone through every continuation, and no get whose SELECT is still to come
   * returns a session.
   */
  lemma LogoutIsFinal(w: World, i: nat, c: nat, k: nat, acts: seq<Action>)
    requires Reachable(w) && i < |w.clients| && w.clients[i].Remover? && Enabled(w, Step(i))
    requires c < |w.clients| && w.clients[c].Creator? && w.clients[c].token == w.clients[i].token && IsOver(w.clients[c])
    requires SeesNothing(w, w.clients[i].token, k) && Feasible(Apply(w, Step(i)), acts)
    ensures w.clients[i].token !in Run(Apply(w, Step(i)), acts).table
    ensures SeesNothing(Run(Apply(w, Step(i)), acts), w.clients[i].token, k)
  {
    var token := w.clients[i].token;
    var w' := Reach(w, Step(i));
    assert w'.clients[c] == w.clients[c];
    assert k < |w.clients| && k != i ==> w'.clients[k] == w.clients[k];
    DeletedForGood(w', token, k, acts);
  }

  // ----- What interleaving can cost -----

  lemma Reach(w: World, a: Action) returns (w': World)
    requires Reachable(w) && Enabled(w, a)
    ensures w' == Apply(w, a) && Reachable(w')
  {
    w' := Apply(w, a);
    var acts :| Feasible(START, acts) && Run(START, acts) == w;
    var longer := acts + [a];
    assert longer[..|acts|] == acts;
    assert Feasible(START, longer) && Run(START, longer) == w';
  }

  /**
   * What sliding expiry keeps can be lost under interleaving. A get that read the clock at
   * 3600 s and found the session expired deletes it after another, which read it at 3599 s,
   * has refreshed and returned it; so a get at 3601 s finds nothing although nobody removed it.
   */
  lemma RefreshedSessionLost() returns (w: World)
    ensures Reachable(w)
    ensures forall k :: 0 <= k < |w.clients| ==> !w.clients[k].Remover?
    ensures exists token, session ::
              && Getter(token, Returned(3599, Some(session))) in w.clients
              && Getter(token, Returned(3601, None)) in w.clients
  {
    var session := Session("alice", "csrf");
    w := Created(session);
    w := Racing(w, session);
    w := LostAfter(w, session);
    assert w.clients[1] in w.clients && w.clients[3] in w.clients;
  }

  lemma Created(session: Session) returns (w: World)
    ensures Reachable(w)
    ensures w == World(0, map["t" := Row(session, 3600)], [Creator("t", session, Inserted(0))])
  {
    w := START;
    assert Feasible(START, []) && Run(START, []) == w;
    w := Reach(w, Join(Creator("t", session, Unread)));
    w := Reach(w, Step(0));
    w := Reach(w, Step(0));
  }

  lemma Racing(w: World, session: Session) returns (w': World)
    requires Reachable(w)
    requires w == World(0, map["t" := Row(session, 3600)], [Creator("t", session, Inserted(0))])
    ensures Reachable(w')
    ensures w' == World(3600, map["t" := Row(session, 3600)],
                        [Creator("t", session, Inserted(0)), Getter("t", Clocked(3599)), Getter("t", Missing(3600))])
  {
    w' := Reach(w, Tick(3599));
    w' := Reach(w', Join(Getter("t", Waiting)));
    w' := Reach(w', Step(1));
    w' := Reach(w', Tick(1));
    w' := Reach(w', Join(Getter("t", Waiting)));
    w' := Reach(w', Step(2));
    w' := Reach(w', Step(2));
  }

  lemma LostAfter(w: World, session: Session) returns (w': World)
    requires Reachable(w)
    requires w == World(3600, map["t" := Row(session, 3600)],
                        [Creator("t", session, Inserted(0)), Getter("t", Clocked(3599)), Getter("t", Missing(3600))])
    ensures Reachable(w')
    ensures w'.clients == [Creator("t", session, Inserted(0)), Getter("t", Returned(3599, Some(session))),
                           Getter("t", Returned(3600, None)), Getter("t", Returned(3601, None))]
  {
    w' := Reach(w, Step(1));
    w' := Reach(w', Step(1));
    assert w'.table == map["t" := Row(session, 7199)];
    w' := Reach(w', Step(2));
    assert w'.table == map[];
    w' := Reach(w', Tick(1));
    w' := Reach(w', Join(Getter("t", Waiting)));
    w' := Reach(w', Step(3));
    w' := Reach(w', Step(3));
    w' := Reach(w', Step(3));
  }

  /** And a logout that works: a session is created, removed, and not found again within the same second. */
  lemma LogoutHappens(session: Session) returns (w: World)
    ensures Reachable(w) && w.clock == 0
    ensures w.clients == [Creator("t", session, Inserted(0)), Remover("t", true), Getter("t", Returned(0, None))]
  {
    w := START;
    assert Feasible(START, []) && Run(START, []) == START;
    w := Reach(w, Join(Creator("t", session, Unread)));
    w := Reach(w, Step(0));
    w := Reach(w, Step(0));
    w := Reach(w, Join(Remover("t", false)));
    w := Reach(w, Step(1));
    assert w.table == map[];
    w := Reach(w, Join(Getter("t", Waiting)));
    w := Reach(w, Step(2));
    w := Reach(w, Step(2));
    w := Reach(w, Step(2));
  }

  // ----- Exactly when a DELETE destroys a live session -----

  /** What a statement does to a token's row: sets its expiry from its client's reading, removes it, or neither. */
  datatype Change = Untouched | Wrote(writer: nat, reading: int) | Removed

  /** The change that the next action makes to the row of `token`, if it succeeds in making one. */
  function ChangeBy(w: World, a: Action, token: string): Change
    requires Enabled(w, a)
  {
    if !a.Step? || w.clients[a.i].token != token then Untouched
    else
      match w.clients[a.i]
      case Creator(_, _, Ready(now)) => if token in w.table then Untouched else Wrote(a.i, now)
      case Getter(_, Found(now, _)) => if token in w.table then Wrote(a.i, now) else Untouched
      case Getter(_, Missing(_)) => if token in w.table then Removed else Untouched
      case Remover(_, _) => if token in w.table then Removed else Untouched
      case _ => Untouched
  }

  /** The last change made to the row of `token` in the course of `acts`. */
  function LastChange(w: World, acts: seq<Action>, token: string): Change
    requires Feasible(w, acts)
  {
    if acts == [] then Untouched
    else
      var prior := acts[..|acts| - 1];
      var change := ChangeBy(Run(w, prior), acts[|acts| - 1], token);
      if change.Untouched? then LastChange(w, prior, token) else change
  }

  lemma ChangeDecides(w: World, a: Action, token: string, t: int)
    requires Enabled(w, a)
    ensures Select(Apply(w, a).table, token, t).Some? <==>
            match ChangeBy(w, a, token)
            case Untouched => Select(w.table, token, t).Some?
            case Wrote(_, reading) => t < reading + SESSION_TTL_SECS
            case Removed => false
  {
  }

  /** The last change to a row decides what a SELECT finds, from any world on and for any reading. */
  lemma {:induction false} LastChangeDecides(w: World, acts: seq<Action>, token: string, t: int)
    requires Feasible(w, acts)
    ensures Select(Run(w, acts).table, token, t).Some? <==>
            match LastChange(w, acts, token)
            case Untouched => Select(w.table, token, t).Some?
            case Wrote(_, reading) => t < reading + SESSION_TTL_SECS
            case Removed => false
  {
    if acts != [] {
      LastChangeDecides(w, acts[..|acts| - 1], token, t);
      ChangeDecides(Run(w, acts[..|acts| - 1]), acts[|acts| - 1], token, t);
    }
  }

  /**
   * What overlap costs, exactly. A get has read the clock at `now` and its SELECT has found
   * nothing; other calls go on; then it deletes. For every time `t` since its reading, the
   * DELETE destroys a session that is live at `t` if and only if the last statement to change
   * the row after the SELECT set its expiry from a reading less than the TTL before `t`.
   */
  lemma DeleteDestroysLiveIff(w: World, i: nat, now: int, acts: seq<Action>, t: int)
    requires i < |w.clients| && w.clients[i].Getter? && w.clients[i].get == Clocked(now)
    requires Apply(w, Step(i)).clients[i].get.Missing?
    requires Feasible(Apply(w, Step(i)), acts) && now <= t
    requires i < |Run(Apply(w, Step(i)), acts).clients|
    requires Run(Apply(w, Step(i)), acts).clients[i] == Apply(w, Step(i)).clients[i]
    ensures var token := w.clients[i].token;
      var end := Run(Apply(w, Step(i)), acts);
      var change := LastChange(Apply(w, Step(i)), acts, token);
      && Select(Apply(end, Step(i)).table, token, t) == None
      && (Select(end.table, token, t).Some?
          <==> change.Wrote? && t < change.reading + SESSION_TTL_SECS)
  {
    LastChangeDecides(Apply(w, Step(i)), acts, w.clients[i].token, t);
  }

  // ----- Calls that do not overlap -----

  /** A call on a token begins only when no other call on it is in progress. */
  predicate JoinsAlone(w: World, a: Action) {
    a.Join? ==> forall k :: 0 <= k < |w.clients| && w.clients[k].token == a.client.token ==> IsOver(w.clients[k])
  }

  ghost predicate AllJoinAlone(acts: seq<Action>)
    requires Feasible(START, acts)
  {
    acts == [] || (AllJoinAlone(acts[..|acts| - 1]) && JoinsAlone(Run(START, acts[..|acts| - 1]), acts[|acts| - 1]))
  }

  ghost predicate OneAtATime(w: World) {
    forall i, j :: 0 <= i < j < |w.clients| && w.clients[i].token == w.clients[j].token ==>
      IsOver(w.clients[i]) || IsOver(w.clients[j])
  }

  /** A get about to delete has, by its own reading of the clock, nothing live to delete. */
  predicate DeletesOnlyExpired(w: World, i: nat)
    requires i < |w.clients|
  {
    w.clients[i].Getter? && w.clients[i].get.Missing? ==> Select(w.table, w.clients[i].token, w.clients[i].get.now) == None
  }

  lemma OneAtATimeStep(w: World, a: Action)
    requires OneAtATime(w) && Enabled(w, a) && JoinsAlone(w, a)
    ensures OneAtATime(Apply(w, a))
  {
    var w' := Apply(w, a);
    assert forall k :: 0 <= k < |w.clients| ==>
        w'.clients[k].token == w.clients[k].token && (IsOver(w.clients[k]) ==> IsOver(w'.clients[k]));
  }

  lemma OtherTokensKept(w: World, a: Action, token: string)
    requires Enabled(w, a) && (a.Step? ==> w.clients[a.i].token != token)
    ensures forall now :: Select(Apply(w, a).table, token, now) == Select(w.table, token, now)
  {
  }

  lemma DeletesOnlyExpiredStep(w: World, a: Action, i: nat)
    requires OneAtATime(w) && Enabled(w, a) && i < |Apply(w, a).clients|
    requires i < |w.clients| ==> DeletesOnlyExpired(w, i)
    ensures DeletesOnlyExpired(Apply(w, a), i)
  {
    var w' := Apply(w, a);
    if i < |w.clients| && w'.clients[i] == w.clients[i] && !IsOver(w.clients[i]) {
      if a.Step? {
        assert a.i != i;
      }
      OtherTokensKept(w, a, w.clients[i].token);
    }
  }

  /**
   * In particular the loss takes an overlap: while no two calls on one token overlap,
   * no get ever deletes a session that its own reading of the clock would have accepted.
   */
  lemma {:induction false} SerialGetsDeleteOnlyExpired(acts: seq<Action>, i: nat)
    requires Feasible(START, acts) && AllJoinAlone(acts) && i < |Run(START, acts).clients|
    ensures OneAtATime(Run(START, acts)) && DeletesOnlyExpired(Run(START, acts), i)
  {
    var prior, a := acts[..|acts| - 1], acts[|acts| - 1];
    var before := Run(START, prior);
    if i < |before.clients| {
      SerialGetsDeleteOnlyExpired(prior, i);
    } else {
      SerialSoFar(prior);
    }
    OneAtATimeStep(before, a);
    DeletesOnlyExpiredStep(before, a, i);
  }

  lemma {:induction false} SerialSoFar(acts: seq<Action>)
    requires Feasible(START, acts) && AllJoinAlone(acts)
    ensures OneAtATime(Run(START, acts))
  {
    if acts != [] {
      SerialSoFar(acts[..|acts| - 1]);
      OneAtATimeStep(Run(START, acts[..|acts| - 1]), acts[|acts| - 1]);
    }
  }
}
