# A verified model of the Multithreaded HTTP server

This project models, in Dafny 4.11, the logic that the Multithreaded server adds on top of
Tokio, Hyper and SQL, and proves what that logic promises. `dafny verify dfyconfig.toml`
checks all of it.

| module | models |
|---|---|
| `Lists` | splitting, joining and summing sequences |
| `RateLimiting` | the per-IP token bucket and the shared limiter, as classes over specification functions |
| `LimiterRuns` | runs of the limiter: eviction, independence of addresses, the closed form |
| `LimiterBounds` | requests per window, and memory |
| `AcceptLoop`, `ServerHistory` | accept loop, connection permits, `in_flight`, `Notify` and the shutdown drain, as a step system, and its states read back from its actions |
| `RequestLedger`, `RequestHistory` | the middleware stack, the concurrency permits and the metrics counters, as a step system, and its counters read back from its actions |
| `StackLimits` | the rate limiter as a client of the whole stack sees it |
| `Routing`, `Dispatch` | pattern compiler, matcher, ordered dispatch |
| `Utf8`, `Decoding` | UTF-8 validity, percent and form decoding |
| `Sessions`, `SessionRaces`, `SessionHistory` | the session table, one call at a time, statement by statement, and read back from the actions |
| `StaticPaths` | `sanitize_path` behind the router's wildcard capture |

## How the model is set up

- Rate limiter: time is integer nanoseconds and a token is 10^9 units, so `elapsed * rate` is
  exact; the source's `f64` is idealised. A check happens in one step, or is interrupted between
  its counter update, the shards of the sweep it may trigger, and its entry into the map, with
  each part reading the clock for itself; a background sweep may be split shard by shard too.
  The call counter wraps at 2^64.
- Step systems: one atomic operation on shared state is one action, actions of all tasks and
  requests interleave freely, and memory is sequentially consistent. `notify_one` with no
  registered waiter stores one notification, and a `Notified` future registers only when it is
  first polled, as in Tokio. The drain's deadline may also pass after a notification has come
  and before the drain has seen it; the notification is then stored again. Futures are dropped
  only at an await, or before their first poll.
- Assumed throughout: clocks do not go backwards over a run, tasks do not panic, and UUIDs do
  not repeat. Each theorem that needs one of these states it.
- Decoding works on bytes. The library's lossy UTF-8 replacement is a function parameter, and
  the theorems hold for every such function.
- A session table is a map, and each SQL statement is one step on it.

Where the code and its comments differ, the model follows the code:

- The comment on the drain says that creating the `Notified` future before re-reading the
  counter closes the race. It registers nothing; what closes the race is the stored
  notification (`AcceptLoop.NoLostWakeUp`). That same storage lets a notification from normal
  serving end a later drain at once (`AcceptLoop.StaleNotificationReachable`), and
  `AcceptLoop.DrainSoundIff` says exactly when it cannot.
- `requests_active` is documented as the requests in flight. Early returns and dropped futures
  never decrement it, so it is right exactly while there has been none
  (`RequestLedger.GaugeIsLivePlusLeaked`, `RequestLedger.CountersAtRest`). `responses_4xx` also counts 3xx.
- `percent_decode` is documented to pass bytes that are not UTF-8 through unchanged; it replaces
  them.
- `serve_file` is documented to refuse `.`; it skips it. Its argument is not URL-decoded.
- The session store's sliding expiry is exact for calls that do not overlap
  (`Sessions.GetReturnsIffLive`). For overlapping calls no session outlives it: an answer is
  chained to the create by answering gets that are each under 3600 s apart
  (`SessionRaces.AnswersAreHonest`). But a refreshed session can be lost
  (`SessionRaces.RefreshedSessionLost`), and `SessionRaces.DeleteDestroysLiveIff` says exactly when.

## Model

| member | source | states |
|---|---|---|
| RateLimiting.TokenBucket.TryConsume | src/middleware/rate_limiter.rs:75-87 | refills in place up to capacity, then takes one token exactly if there is one; the answer and the new bucket are those of the specification functions the theorems below are about |
| RateLimiting.RateLimiter.Check | src/middleware/rate_limiter.rs:126-136 | counts the call, sweeps on every 10,000th, enters and consumes; answer, map and wrapped counter are those of `Allows` and `Checked`, and other slots keep their values |
| RateLimiting.RateLimiter.EvictStale | src/middleware/rate_limiter.rs:144-161 | removes exactly the buckets older than the TTL, and none while the clock is younger than the TTL |
| RateLimiting.RateLimiter.BucketCount | src/middleware/rate_limiter.rs:164-166 | the number of tracked addresses |
| LimiterRuns.EvictionUnobservable | src/middleware/rate_limiter.rs:126-161 | in every run, with interrupted checks and any sweeps at any times, every answer is the one a limiter that never forgets gives |
| LimiterRuns.RunForgets | src/middleware/rate_limiter.rs:144-161 | at every moment the map is the never-forgetting one less buckets idle for longer than the TTL |
| LimiterRuns.ShardsMakeASweep | src/middleware/rate_limiter.rs:138-156 | a sweep interrupted between shards, with one cutoff, leaves exactly what the whole sweep leaves once the shards have covered the map |
| LimiterRuns.AnswerFromOwnTimes | src/middleware/rate_limiter.rs:126-136 | an answer is decided by the token level that the address's own check times alone produce |
| LimiterRuns.NonInterference | src/middleware/rate_limiter.rs:126-161 | two runs that check an address at the same times answer it alike, whatever other addresses and sweeps do |
| LimiterRuns.LevelIsLeastHeadroom | src/middleware/rate_limiter.rs:62-88 | closed form: the level a check finds is the minimum, over all earlier checks `j`, of capacity plus inflow since `j` less what was granted since `j` |
| LimiterRuns.AllowedIffEveryWindowHasRoom | src/middleware/rate_limiter.rs:75-136 | in every run a check is let through if and only if each window of that address's checks ending in it still has room for it |
| LimiterRuns.NextCheckRefusedIff | src/middleware/rate_limiter.rs:126-136 | after any run, the next check is refused if and only if some window of its address's checks ending in it has no room |
| LimiterBounds.WindowBound | src/middleware/rate_limiter.rs:75-136 | in every run, evictions included, at most `rate * (1 + (t - s))` requests of one address pass in `[s, t]` |
| LimiterBounds.SpacedCheckPasses | src/middleware/rate_limiter.rs:75-87 | a check at least `1/rate` after all earlier ones of its address is never rejected, for `rate >= 1` |
| LimiterBounds.SweepLeavesExactly | src/middleware/rate_limiter.rs:144-161 | in every run a full sweep leaves exactly the addresses checked within 300 s before it, and that of the check that swept |
| LimiterBounds.CheckSweepsIff | src/middleware/rate_limiter.rs:126-130 | in every run a check sweeps if and only if the number of calls before it, modulo 2^64, is a positive multiple of 10,000 |
| LimiterBounds.MemoryBound | src/middleware/rate_limiter.rs:126-161 | in every run, interrupted checks included, buckets never exceed the addresses checked within 300 s before the last full sweep, plus 10,000 (11,616 once the counter has wrapped) times one more than the interrupted checks that reached the sweep count since, plus the checks between counter and map at that sweep less those there now |
| LimiterBounds.MemoryBoundBeforeSweeps | src/middleware/rate_limiter.rs:40-42 | before any full sweep the same without the recent addresses, which is at most 10,000 less the checks between counter and map while no interrupted check has reached the sweep count |
| LimiterBounds.UninterruptedEntered | src/middleware/rate_limiter.rs:126-131 | while no check is interrupted the extra terms of both bounds vanish and leave 10,000, or 11,616 once the counter has wrapped |
| AcceptLoop.ConnectionAccounting | src/server/mod.rs:256-347 | in every reachable state `in_flight` is the tasks not past their `fetch_sub` (plus one being spawned), `in_flight <= permits in use <= max_connections`, free plus held is the maximum, and accepted = IP-rejected + dropped + spawned between iterations |
| AcceptLoop.InFlightOnlyFalls | src/server/mod.rs:360-395 | once the accept loop has stopped, `in_flight` never rises in any continuation |
| AcceptLoop.NoLostWakeUp | src/server/mod.rs:323-335 | whenever the drain waits and `in_flight` is 0, some task owes the notification, can send it, and sending it wakes the drain |
| AcceptLoop.DrainCanComplete | src/server/mod.rs:365-392 | from every reachable waiting state the open connections can finish so that the drain returns notified with nothing in flight |
| AcceptLoop.DrainIsBounded | src/server/mod.rs:323-392 | once the accept loop has stopped, the length of every run is bounded by the steps its tasks and the drain have left |
| AcceptLoop.DrainInevitable | src/server/mod.rs:365-392 | every run after the loop has stopped in which only the timeout is left to do has ended the drain, and not by timeout unless it took it; every connection is over and every permit back |
| AcceptLoop.DrainOutcome | src/server/mod.rs:372-391 | leaving the drain without a timeout means nothing is in flight, if a notified drain saw no 1-to-0 transition before the loop stopped |
| AcceptLoop.DrainSoundIff | src/server/mod.rs:323-391 | from the state in which the loop stops, every notified drain ends with nothing in flight if and only if no notification is stored or owed while connections are open |
| AcceptLoop.StaleNotificationReachable | src/server/mod.rs:333-335 | a reachable state in which the drain returned notified with one connection in flight |
| ServerHistory.DroppedIffFull | src/server/mod.rs:295-344 | in every reachable state with a connection at hand it can be dropped if and only if as many are open as `max_connections`, and can be served if and only if fewer are |
| ServerHistory.DropsWereAtLimit | src/server/mod.rs:295-344 | in every run each drop happened with the limit reached, and each permit was taken below it |
| ServerHistory.LoopComesBack | src/server/mod.rs:257-346 | whatever the address filter says, the loop comes back to accept, having counted the rejection, dropped the connection because the server is full, or spawned its task |
| ServerHistory.TrafficFromActions | src/server/mod.rs:258-344 | in every run accepted, rejected, dropped and spawned connections are the numbers of those actions |
| ServerHistory.OutcomeIsHistory | src/server/mod.rs:368-391 | in every run the drain found nothing to do exactly if its first load was zero, emptied early exactly if its second was, timed out exactly if the timeout was taken, and was notified exactly if it resumed or first polled with a notification stored |
| ServerHistory.NotificationKept | src/server/mod.rs:333-335 | in every run a notification is stored or has woken the drain until the drain takes it, and none comes from nowhere |
| ServerHistory.ShutdownNotHeldUp | src/server/mod.rs:360-394 | from every state after the loop has stopped the drain can end by at most seven steps of its own, no connection having moved |
| ServerHistory.IdleServerDoesNotWait | src/server/mod.rs:368-369 | a server that stops with nothing in flight returns without ever waiting, in every continuation |
| RequestLedger.LedgerRun | src/server/connection.rs:124-208 | in every run each counter and the semaphore equal the sums of what the requests contribute by their stage alone, 3xx counting as 4xx |
| RequestLedger.LedgerBalances | src/server/connection.rs:124-208 | `total = active + 2xx + 4xx + 5xx`, corrected by exactly the requests between adjacent counter updates; `active` never underflows; every timeout is among the 5xx or about to be |
| RequestLedger.CountersAtRest | src/server/connection.rs:137-206 | at rest all permits are back, `timed_out <= 5xx`, and `requests_active` counts exactly the early-returned and dropped requests, so it is zero if and only if there is none |
| RequestLedger.GaugeIsLivePlusLeaked | src/server/connection.rs:137-206 | in every run `requests_active` is the requests being served plus all that returned early or were dropped so far, so it equals the requests being served if and only if there is no such request |
| RequestLedger.EarlyReturnLeaks | src/server/connection.rs:143-148 | a run of one oversized request that leaves `requests_active` at 1 |
| RequestLedger.LayeredAdmission | src/middleware/concurrency.rs:97-116 | in every run, a request answered 429 or still to try has made no step and touched no permit; one answered 503 made a single step, a try that found all permits in use; any other took exactly one permit in a try that found one free, and permits taken less permits put back is one while it is forwarded and zero after |
| RequestLedger.CappedIffFull | src/middleware/concurrency.rs:97-116 | in every run a call past the limiter is answered 503 exactly if all permits are in use, and otherwise takes one; forwarded requests never exceed the cap |
| RequestLedger.LeavingReturnsPermit | src/middleware/concurrency.rs:99-106 | completing, returning early and being dropped each give back exactly one permit, and no other step does |
| RequestLedger.AcquiresOnce | src/middleware/concurrency.rs:97-106 | no request tries for a permit twice in any run |
| RequestHistory.StageIsHistory | src/server/connection.rs:124-208 | in every run the stage of a request is exactly the history of its own actions: its status is the one its handler gave, 413 or 400 as it was turned away, and each counter update has happened or not |
| RequestHistory.CountersFromActions | src/server/connection.rs:127-206 | in every run, from the actions alone: `responses_2xx`, `4xx` and `5xx` are the tallied requests answered below 300, from 300 to 499, and from 500 on, a timeout answering 503; `requests_total`, `requests_active` and `timed_out` are the requests counted, counted in and not out, and expired |
| RequestHistory.AnyAnswer | src/server/connection.rs:170-208 | with a permit and a token to take, a request can be answered with every status, and can time out |
| RequestHistory.AnyEarlyEnd | src/server/connection.rs:137-166 | it can be turned away with 413 and with 400, and its future can be dropped before it is polled and while its body is read |
| RequestHistory.DroppedInHandler | src/server/connection.rs:172-177 | its future can be dropped while its handler runs |
| StackLimits.LimitedIffOverLimit | src/server/connection.rs:213-217 | through any interleaving of the stack, a request is answered 429 if and only if some window of its own address's arrivals ending in its own has no room for it |
| StackLimits.AdmittedPerWindow | src/middleware/rate_limiter.rs:242-259 | through the whole stack, at most `rate * (1 + (t - s))` requests of one address that arrive in `[s, t]` get past the limiter |
| StackLimits.EveryTrafficHappens | src/server/connection.rs:213-217 | every sequence of checks and sweeps is what the limiter sees of some run of the stack |
| Routing.SamePatternIffSameComponents | src/http/router.rs:187-201 | patterns compile alike if and only if they have the same non-empty components |
| Routing.MatchByText | src/http/router.rs:187-248 | for patterns with a wildcard only at the end, in terms of the two texts alone: when they match, what each `:name` captures with the last of equal names winning, and that `*name` captures all the rest |
| Routing.ParameterRoute | src/http/router.rs:194-235 | for every literal `a`, name `n` and component `x`, `/a/:n` matches `/a/x` with exactly `n` captured as `x` |
| Routing.WildcardInFront | src/http/router.rs:236-243 | a wildcard in front of the end makes the matcher ignore what follows it, except in the length |
| Routing.MatchPath | src/http/router.rs:208-248 | the loop with its early returns computes the specified match and captures, for every pattern |
| Routing.MatchIsSubstitution | src/http/router.rs:208-248 | for patterns with the wildcard last, an assignment instantiates the pattern to the path if and only if it is the matcher's result and equal names captured equal values |
| Routing.DistinctMatchIsSubstitution | src/http/router.rs:208-248 | with distinct names, matching with result `p` is exactly instantiation by `p`; an empty tail is unbound |
| Routing.RepeatedNameMatchesMore | src/http/router.rs:232-235 | with a repeated name the matcher accepts a path that no assignment instantiates |
| Routing.RenderedPathIsPath | src/http/router.rs:208-248 | rendering the pattern with the captures gives the path back up to redundant slashes |
| Dispatch.Router.Add | src/http/router.rs:121-134 | appends the compiled route |
| Dispatch.Router.Any | src/http/router.rs:107-118 | appends the compiled route under the method `*` |
| Dispatch.Router.Dispatch | src/http/router.rs:145-169 | the outcome is the lowest-index route whose path matches and whose method is `*` or the request's, with its captures; 405 if and only if paths match and every such route has another method; 404 if and only if no path matches |
| Dispatch.OutcomeIs | src/http/router.rs:136-169 | the same of every outcome that the matching rules admit, handled if and only if some route allows it |
| Dispatch.DecidesOnce | src/http/router.rs:136-144 | those matching rules admit one outcome per request |
| Dispatch.SlashesDoNotMatter | src/http/router.rs:209-209 | adding or removing redundant slashes changes no outcome |
| Dispatch.LaterRoutesDoNotInterfere | src/http/router.rs:151-162 | routes appended later never change the answer to a request already handled |
| Dispatch.CatchAllTakesTheRest | src/server/connection.rs:856-869 | with the any-method `/*path` route last there is no 404 or 405, and it takes exactly what no earlier route takes, with the whole path captured |
| Decoding.PercentDecode | src/http/request.rs:115-138 | the replace-then-scan loop computes the recursive one-byte-per-token decoder, then UTF-8 or the lossy fallback |
| Decoding.DecodeUndoesWriting | src/http/request.rs:115-132 | decoding undoes every legal way of writing a byte string: bytes as they are, space as plus or escape, hex of either case |
| Decoding.PercentInContext | src/http/request.rs:120-132 | anywhere in a text, `%` with two hex digits behind it decodes to the byte they spell, and without them passes through |
| Decoding.ByteInContext | src/http/request.rs:116-132 | anywhere in a text, `+` decodes to a space and every other byte that is no hex digit or `%` to itself |
| Decoding.EitherCase | src/http/request.rs:122-125 | every byte can be escaped in hex digits of either case |
| Utf8.ValidIffEncoding | src/http/request.rs:133-137 | the bytes accepted as UTF-8 are exactly the encodings of sequences of Unicode scalar values |
| Decoding.FindPairIsFirst | src/http/request.rs:62-91 | for every list of pairs, however written, the decoded value of the first pair whose decoded key is the one asked for |
| Decoding.PlainPairsFound | src/http/request.rs:262-272 | a key and a value without special bytes are found as they stand, before and behind an `&` |
| Decoding.QueryParamUndoesEncoding | src/http/request.rs:62-72 | for every non-empty list of UTF-8 pairs and every legal encoding, the value of the first pair with the key, and `None` for absent keys; `None` without a query string |
| Decoding.FormParamUndoesEncoding | src/http/request.rs:78-91 | for every legal encoding `form_param` gives the first value if and only if the body as sent is UTF-8 or the key is absent; from any other body it gives `None` |
| Decoding.FormParamMissesPresentKey | src/http/request.rs:79-80 | a legal encoding of a UTF-8 pair that `query_param` reads back and `form_param` answers with `None` |
| Decoding.FormParamUndoesAsciiEncoding | src/http/request.rs:78-91 | for encoders that escape all non-ASCII bytes, `form_param` always finds the first value |
| Decoding.EveryFormHasEncoding | src/http/request.rs:78-91 | for every non-empty list of UTF-8 pairs the body with every byte escaped gives `form_param` the first value of a key, and `None` for absent keys |
| Decoding.EmptyListHasEmptyKey | src/http/request.rs:62-91 | in the empty query string and the empty body the empty key is found, and no other |
| Decoding.PlainTextUnchanged | src/http/request.rs:243-248 | text without percent and plus decodes to itself |
| Sessions.SessionStore.Create | src/session/mod.rs:40-52 | inserts a row that expires after the TTL, and fails with the table unchanged on a taken token |
| Sessions.SessionStore.Get | src/session/mod.rs:55-80 | SELECT, then DELETE or UPDATE: the answer and the new table |
| Sessions.SessionStore.Remove | src/session/mod.rs:83-89 | deletes this token's row and no other |
| Sessions.GetReturnsIffLive | src/session/mod.rs:40-89 | over every sequential run a get returns a session if and only if its token was created, not removed, and every gap between touches up to this get is under 3600 s; it is the session written at creation |
| SessionRaces.NoResurrection | src/session/mod.rs:55-89 | under every interleaving of statements a deleted token never reappears, and no get whose SELECT comes later returns a session |
| SessionRaces.DeletedForGood | src/session/mod.rs:55-89 | the same from every reachable state |
| SessionRaces.LogoutIsFinal | src/session/mod.rs:83-89 | once a remove has run on a created token, through every interleaving the token stays gone and no get whose SELECT comes later returns a session |
| SessionRaces.LogoutHappens | src/session/mod.rs:83-89 | a reachable world in which a session was created, removed and then not found |
| SessionRaces.AnswersAreHonest | src/session/mod.rs:55-80 | under every interleaving a returned session is the one its token's create wrote, and a chain of distinct other gets, all answered, leads from that create to this get with every clock reading under 3600 s after the one before it |
| SessionRaces.ChainBound | src/session/mod.rs:71-75 | hence the last reading of such a chain is at most 3600 s times its number of gets after the create |
| SessionRaces.RefreshedSessionLost | src/session/mod.rs:64-75 | a reachable interleaving in which a refreshed session is deleted by a get that had found it expired |
| SessionRaces.DeleteDestroysLiveIff | src/session/mod.rs:56-70 | under every interleaving between the SELECT of a get that found nothing and its DELETE, and for every time since its reading, the DELETE destroys a session live at that time if and only if the last statement to change the row in between set its expiry from a reading under 3600 s before that time |
| SessionRaces.SerialGetsDeleteOnlyExpired | src/session/mod.rs:55-80 | in particular, while no two calls on one token overlap, no get deletes a session that its own clock reading would have accepted |
| SessionHistory.ClientIsHistory | src/session/mod.rs:40-89 | in every run each call is exactly as far as its own steps, its clock reading is the time that had passed at its first, and its statement found what the table then held: a create succeeds if and only if its token was free |
| SessionHistory.GetReturnsWhatSelectFound | src/session/mod.rs:57-79 | in every run a finished get returns a session if and only if its SELECT found it, whatever happened to the row since |
| SessionHistory.ReadsWithinCall | src/session/mod.rs:43-56 | in every run a call's reading lies between the time it began and now |
| SessionHistory.SelectFindsIff | src/session/mod.rs:40-75 | in every run a get's SELECT finds the session if and only if the last statement that changed the row was the INSERT or UPDATE of a call that read the clock less than 3600 s before this get did |
| StaticPaths.SanitizePath | src/static_files/mod.rs:128-138 | fails if and only if the path begins with a slash or has a `..` segment; otherwise joins the segments other than `.` |
| StaticPaths.SanitizeIdempotent | src/static_files/mod.rs:128-138 | sanitising the result again changes nothing |
| StaticPaths.JoinStaysInside | src/static_files/mod.rs:51-58 | for every base directory the joined path has the base as prefix, and its components are the base's followed by ordinary names |
| StaticPaths.StaticRequest | src/server/connection.rs:337-342 | for every path routed through `/static/*filepath`, it is refused exactly if a captured segment is `..`, and otherwise what is kept is the captured segments less `.` |
| StaticPaths.StaticRouted | src/server/connection.rs:337-342 | the paths routed there are exactly those whose first component is `static` |

## Left out

- Floating-point rounding of token levels; the closed form is about exact arithmetic.
- Weak memory orderings, task panics and the HTTP redirect listener.
- The keep-alive timer, the graceful flag and the TLS handshake inside a connection task, which is one stage here.
- TLS loading, signals, logging, templates, JWT, Argon2 and the item database: library calls with little logic of their own.
- Reverse-proxy forwarding beyond the catch-all route, and response building.
- The form loops of the login and item pages, which use an external decoder.
- Configuration parsing, the IP filter's lists, the MIME table and the Prometheus text: easy members.
- The `rate_limited` and `concurrency_limited` counters, which nothing increments.
- File-system access in `serve_file`; only the path it opens is modelled, and on Unix rules.
- The contents of the lossy UTF-8 replacement, and the parsing of the session cookie.
