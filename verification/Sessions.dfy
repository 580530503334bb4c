/** The session store: one table, changed statement by statement, with sliding expiry. */
module Sessions {
  import opened Lists

  const SESSION_TTL_SECS: int := 3600

  datatype Session = Session(username: string, csrfToken: string)

  datatype Row = Row(session: Session, expiresAt: int)

  /** The `sessions` table, keyed by its primary key. */
  type Table = map<string, Row>

  // ----- The statements -----

  /** INSERT violates the primary key if the token is already there. */
  function Insert(t: Table, token: string, row: Row): Option<Table> {
    if token in t then None else Some(t[token := row])
  }

  /** SELECT .. WHERE token = $1 AND expires_at > $2 */
  function Select(t: Table, token: string, now: int): Option<Session> {
    if token in t && t[token].expiresAt > now then Some(t[token].session) else None
  }

  /** UPDATE .. SET expires_at, which touches no row if the token is gone. */
  function Update(t: Table, token: string, expiresAt: int): Table {
    if token in t then t[token := t[token].(expiresAt := expiresAt)] else t
  }

  function Delete(t: Table, token: string): Table {
    t - {token}
  }

  class SessionStore {
    var table: Table

    constructor ()
      ensures table == map[]
    {
      table := map[];
    }

    method Create(token: string, csrfToken: string, username: string, now: int) returns (r: Option<string>)
      modifies this
      ensures token in old(table) ==> r == None && table == old(table)
      ensures token !in old(table) ==>
                r == Some(token)
                && table == old(table)[token := Row(Session(username, csrfToken), now + SESSION_TTL_SECS)]
    {
      var expiresAt := now + SESSION_TTL_SECS;
      var inserted := Insert(table, token, Row(Session(username, csrfToken), expiresAt));
      if inserted.None? {
        return None;
      }
      table := inserted.value;
      return Some(token);
    }

    method Get(token: string, now: int) returns (r: Option<Session>)
      modifies this
      ensures r == Select(old(table), token, now)
      ensures table == After(old(table), Event.Get(token, now))
    {
      r := Select(table, token, now);
      if r.None? {
        table := Delete(table, token);
        return;
      }
      table := Update(table, token, now + SESSION_TTL_SECS);
    }

    method Remove(token: string)
      modifies this
      ensures token !in table && forall other :: other != token ==>
                (other in table <==> other in old(table)) && (other in table ==> table[other] == old(table)[other])
    {
      table := Delete(table, token);
    }
  }

  // ----- Sequential runs -----

  datatype Event =
    | Create(token: string, session: Session, at: int)
    | Get(token: string, at: int)
    | Remove(token: string, at: int)

  function After(t: Table, e: Event): Table {
    match e
    case Create(token, session, at) =>
      var inserted := Insert(t, token, Row(session, at + SESSION_TTL_SECS));
      if inserted.None? then t else inserted.value
    case Get(token, at) =>
      if Select(t, token, at).Some? then Update(t, token, at + SESSION_TTL_SECS) else Delete(t, token)
    case Remove(token, at) => Delete(t, token)
  }

  function Run(evs: seq<Event>): Table {
    if evs == [] then map[] else After(Run(evs[..|evs| - 1]), evs[|evs| - 1])
  }

  /** What the get at position `i` of the run returns. */
  function Answer(evs: seq<Event>, i: nat): Option<Session>
    requires i < |evs| && evs[i].Get?
  {
    Select(Run(evs[..i]), evs[i].token, evs[i].at)
  }

  predicate Ordered(evs: seq<Event>) {
    forall i, j :: 0 <= i < j < |evs| ==> evs[i].at <= evs[j].at
  }

  /** Tokens are fresh UUIDs: no two creates share one. */
  predicate FreshTokens(evs: seq<Event>) {
    forall i, j :: 0 <= i < j < |evs| && evs[i].Create? && evs[j].Create? ==> evs[i].token != evs[j].token
  }

  predicate Touches(e: Event, token: string) {
    !e.Remove? && e.token == token
  }

  /** The get at `k` comes less than the TTL after some touch of its token from `c` on. */
  ghost predicate InTime(evs: seq<Event>, c: nat, k: nat)
    requires k < |evs|
  {
    exists j :: c <= j < k && Touches(evs[j], evs[k].token) && evs[k].at < evs[j].at + SESSION_TTL_SECS
  }

  /** Created at `c`, and since then neither removed nor ever left alone for the TTL before a get. */
  ghost predicate LiveSince(evs: seq<Event>, token: string, c: nat) {
    && c < |evs| && evs[c].Create? && evs[c].token == token
    && forall k :: c < k < |evs| && evs[k].token == token ==> evs[k].Get? && InTime(evs, c, k)
  }

  /** The position of the last touch of `token` from `c` on. */
  function LastTouch(evs: seq<Event>, token: string, c: nat): (k: nat)
    requires c < |evs| && Touches(evs[c], token)
    ensures c <= k < |evs| && Touches(evs[k], token)
    ensures forall j :: k < j < |evs| ==> !Touches(evs[j], token)
  {
    var n := |evs| - 1;
    if Touches(evs[n], token) then n else LastTouch(evs[..n], token, c)
  }

  lemma LiveSincePrefix(evs: seq<Event>, token: string, c: nat)
    requires c + 1 < |evs|
    ensures var n := |evs| - 1;
      LiveSince(evs, token, c) <==>
      LiveSince(evs[..n], token, c) && (evs[n].token == token ==> evs[n].Get? && InTime(evs, c, n))
  {
    var n := |evs| - 1;
    var prior := evs[..n];
    forall k | c < k < n ensures InTime(evs, c, k) <==> InTime(prior, c, k) {
      assert forall j :: 0 <= j < k ==> evs[j] == prior[j];
      assert evs[k] == prior[k];
      if InTime(evs, c, k) {
        var j :| c <= j < k && Touches(evs[j], evs[k].token) && evs[k].at < evs[j].at + SESSION_TTL_SECS;
        assert Touches(prior[j], prior[k].token);
      }
    }
    assert forall k :: c < k < n ==> evs[k] == prior[k];
  }

  function RowSince(evs: seq<Event>, token: string, c: nat): Row
    requires c < |evs| && evs[c].Create? && evs[c].token == token
  {
    Row(evs[c].session, evs[LastTouch(evs, token, c)].at + SESSION_TTL_SECS)
  }

  /** The table holds exactly the live tokens, each with its creation's data and the last touch's expiry. */
  ghost predicate Tracks(evs: seq<Event>, token: string) {
    && (forall c :: LiveSince(evs, token, c) ==> token in Run(evs) && Run(evs)[token] == RowSince(evs, token, c))
    && (token in Run(evs) ==> exists c :: LiveSince(evs, token, c))
  }

  lemma OtherTokenLive(evs: seq<Event>, token: string, c: nat)
    requires evs != [] && evs[|evs| - 1].token != token
    ensures LiveSince(evs, token, c) <==> LiveSince(evs[..|evs| - 1], token, c)
    ensures LiveSince(evs, token, c) ==> RowSince(evs, token, c) == RowSince(evs[..|evs| - 1], token, c)
  {
    if c < |evs| - 1 {
      LiveSincePrefix(evs, token, c);
      assert evs[c] == evs[..|evs| - 1][c];
    }
  }

  /** An event on another token leaves everything about this one as it was. */
  lemma OtherToken(evs: seq<Event>, token: string)
    requires evs != [] && evs[|evs| - 1].token != token && Tracks(evs[..|evs| - 1], token)
    ensures Tracks(evs, token)
  {
    var prior := evs[..|evs| - 1];
    assert token in Run(evs) <==> token in Run(prior);
    assert token in Run(evs) ==> Run(evs)[token] == Run(prior)[token];
    forall c: nat | LiveSince(evs, token, c)
      ensures token in Run(evs) && Run(evs)[token] == RowSince(evs, token, c)
    {
      OtherTokenLive(evs, token, c);
    }
    if token in Run(evs) {
      var c :| LiveSince(prior, token, c);
      OtherTokenLive(evs, token, c);
    }
  }

  lemma CreateTracks(evs: seq<Event>, token: string)
    requires evs != [] && evs[|evs| - 1].Create? && evs[|evs| - 1].token == token
    requires FreshTokens(evs) && Tracks(evs[..|evs| - 1], token)
    ensures Tracks(evs, token)
  {
    var n := |evs| - 1;
    forall c: nat ensures !LiveSince(evs[..n], token, c) {
      if c < n {
        assert evs[..n][c] == evs[c];
      }
    }
    assert LiveSince(evs, token, n);
    forall c: nat | LiveSince(evs, token, c) ensures c == n {
    }
  }

  /** A get comes in time exactly if it comes less than the TTL after the last touch. */
  lemma InTimeOfLastTouch(evs: seq<Event>, c: nat, n: nat, last: nat)
    requires Ordered(evs) && n < |evs| && c <= last < n && Touches(evs[last], evs[n].token)
    requires forall j :: last < j < n ==> !Touches(evs[j], evs[n].token)
    ensures InTime(evs, c, n) <==> evs[n].at < evs[last].at + SESSION_TTL_SECS
  {
    if InTime(evs, c, n) {
      var j :| c <= j < n && Touches(evs[j], evs[n].token) && evs[n].at < evs[j].at + SESSION_TTL_SECS;
      assert j <= last;
    }
  }

  lemma FoundIffInTime(evs: seq<Event>, token: string, c: nat, t: Table)
    requires evs != [] && evs[|evs| - 1].Get? && evs[|evs| - 1].token == token && Ordered(evs)
    requires c < |evs| - 1 && evs[c].Create? && evs[c].token == token
    requires token in t && t[token] == RowSince(evs[..|evs| - 1], token, c)
    ensures InTime(evs, c, |evs| - 1) <==> Select(t, token, evs[|evs| - 1].at).Some?
  {
    var n := |evs| - 1;
    var last := LastTouch(evs[..n], token, c);
    forall j | last < j < n ensures !Touches(evs[j], token) {
      assert evs[j] == evs[..n][j];
    }
    InTimeOfLastTouch(evs, c, n, last);
  }

  lemma GetTracks(evs: seq<Event>, token: string)
    requires evs != [] && evs[|evs| - 1].Get? && evs[|evs| - 1].token == token
    requires Ordered(evs) && Tracks(evs[..|evs| - 1], token)
    ensures Tracks(evs, token)
  {
    var n := |evs| - 1;
    var prior := evs[..n];
    var found := Select(Run(prior), token, evs[n].at).Some?;
    forall c: nat ensures LiveSince(evs, token, c) <==> LiveSince(prior, token, c) && found {
      if c < n {
        LiveSincePrefix(evs, token, c);
        if LiveSince(prior, token, c) {
          FoundIffInTime(evs, token, c, Run(prior));
        }
      }
    }
    forall c: nat | LiveSince(evs, token, c)
      ensures token in Run(evs) && Run(evs)[token] == RowSince(evs, token, c)
    {
      assert Run(prior)[token].session == prior[c].session == evs[c].session;
    }
    if token in Run(evs) {
      var c :| LiveSince(prior, token, c);
      assert LiveSince(evs, token, c);
    }
  }

  lemma RemoveTracks(evs: seq<Event>, token: string)
    requires evs != [] && evs[|evs| - 1].Remove? && evs[|evs| - 1].token == token
    ensures Tracks(evs, token)
  {
    var n := |evs| - 1;
    forall c: nat ensures !LiveSince(evs, token, c) {
      if c < n {
        LiveSincePrefix(evs, token, c);
      }
    }
  }

  lemma {:induction false} RunTracks(evs: seq<Event>, token: string)
    requires Ordered(evs) && FreshTokens(evs)
    ensures Tracks(evs, token)
  {
    if evs != [] {
      var e := evs[|evs| - 1];
      RunTracks(evs[..|evs| - 1], token);
      if e.token != token {
        OtherToken(evs, token);
      } else if e.Create? {
        CreateTracks(evs, token);
      } else if e.Get? {
        GetTracks(evs, token);
      } else {
        RemoveTracks(evs, token);
      }
    }
  }

  /**
   * Sliding expiry, exactly: a get returns a session if and only if its token was created,
   * has not been removed, and neither this get nor any before it came the TTL or more after
   * the touch before it; and what it returns is what was written at creation.
   */
  lemma GetReturnsIffLive(evs: seq<Event>, i: nat, session: Session)
    requires Ordered(evs) && FreshTokens(evs) && i < |evs| && evs[i].Get?
    ensures Answer(evs, i) == Some(session) <==>
            exists c: nat :: LiveSince(evs[..i + 1], evs[i].token, c) && evs[c].session == session
  {
    var token := evs[i].token;
    var upTo, prior := evs[..i + 1], evs[..i];
    assert upTo[..i] == prior && upTo[i] == evs[i];
    RunTracks(prior, token);
    RunTracks(upTo, token);
    assert token in Run(upTo) <==> Answer(evs, i).Some?;
    forall c: nat | LiveSince(upTo, token, c) ensures Answer(evs, i) == Some(evs[c].session) {
      LiveSincePrefix(upTo, token, c);
      assert prior[c] == evs[c];
    }
    if Answer(evs, i) == Some(session) {
      var c: nat :| LiveSince(upTo, token, c);
      assert evs[c].session == session;
    }
  }
}
