/** Ordered dispatch over the registered routes. */
module Dispatch {
  import opened Lists
  import opened Routing

  datatype RouteEntry<H> = RouteEntry(verb: string, segments: seq<PathSegment>, handler: H)

  datatype Outcome<H> =
    | Handled(index: nat, handler: H, params: Params)
    | MethodNotAllowed
    | NotFound

  /** The sentinel that `any` registers under. */
  const ANY_METHOD: string := "*"

  predicate PathMatches<H>(r: RouteEntry<H>, path: string) {
    Match(r.segments, Segments(path)).Some?
  }

  predicate VerbMatches<H>(r: RouteEntry<H>, verb: string) {
    r.verb == ANY_METHOD || r.verb == verb
  }

  predicate Takes<H>(r: RouteEntry<H>, verb: string, path: string) {
    PathMatches(r, path) && VerbMatches(r, verb)
  }

  /** None of the first `n` routes matches both method and path. */
  predicate NoneTakes<H>(routes: seq<RouteEntry<H>>, n: nat, verb: string, path: string)
    requires n <= |routes|
  {
    forall j :: 0 <= j < n ==> !Takes(routes[j], verb, path)
  }

  predicate SomePathMatches<H>(routes: seq<RouteEntry<H>>, n: nat, path: string)
    requires n <= |routes|
  {
    exists j :: 0 <= j < n && PathMatches(routes[j], path)
  }

  /** What the documentation promises of an outcome: first full match, else 405, else 404. */
  ghost predicate Decides<H>(routes: seq<RouteEntry<H>>, verb: string, path: string, o: Outcome<H>) {
    match o
    case Handled(i, handler, params) =>
      && i < |routes|
      && VerbMatches(routes[i], verb)
      && handler == routes[i].handler
      && Match(routes[i].segments, Segments(path)) == Some(params)
      && NoneTakes(routes, i, verb, path)
    case MethodNotAllowed =>
      SomePathMatches(routes, |routes|, path) && NoneTakes(routes, |routes|, verb, path)
    case NotFound =>
      !SomePathMatches(routes, |routes|, path)
  }

  /** The routes whose pattern matches the path. */
  ghost function Reached<H>(routes: seq<RouteEntry<H>>, path: string): set<nat> {
    set i: nat | i < |routes| && Match(routes[i].segments, Segments(path)).Some?
  }

  /** Those of them that are registered for this method, or with `any`. */
  ghost function Allowed<H>(routes: seq<RouteEntry<H>>, verb: string, path: string): set<nat> {
    set i <- Reached(routes, path) | routes[i].verb == "*" || routes[i].verb == verb
  }

  /** Handled by the least allowed route, 405 if some route is reached and none allowed, 404 if none is reached. */
  lemma OutcomeIs<H>(routes: seq<RouteEntry<H>>, verb: string, path: string, o: Outcome<H>)
    requires Decides(routes, verb, path, o)
    ensures o.Handled? <==> Allowed(routes, verb, path) != {}
    ensures o.Handled? ==>
              && o.index in Allowed(routes, verb, path)
              && (forall i <- Allowed(routes, verb, path) :: o.index <= i)
              && Match(routes[o.index].segments, Segments(path)) == Some(o.params)
              && o.handler == routes[o.index].handler
    ensures o.MethodNotAllowed? <==> Reached(routes, path) != {} && Allowed(routes, verb, path) == {}
    ensures o.NotFound? <==> Reached(routes, path) == {}
  {
    forall i: nat | i < |routes|
      ensures i in Reached(routes, path) <==> PathMatches(routes[i], path)
      ensures i in Allowed(routes, verb, path) <==> Takes(routes[i], verb, path)
    {
    }
    match o
    case Handled(i, _, _) => assert i in Allowed(routes, verb, path);
    case MethodNotAllowed =>
      var j :| 0 <= j < |routes| && PathMatches(routes[j], path);
      assert j in Reached(routes, path);
    case NotFound =>
  }

  class Router<H> {
    var routes: seq<RouteEntry<H>>

    constructor ()
      ensures routes == []
    {
      routes := [];
    }

    method Add(verb: string, pattern: string, handler: H)
      modifies this
      ensures routes == old(routes) + [RouteEntry(verb, ParsePattern(pattern), handler)]
    {
      routes := routes + [RouteEntry(verb, ParsePattern(pattern), handler)];
    }

    method Any(pattern: string, handler: H)
      modifies this
      ensures routes == old(routes) + [RouteEntry("*", ParsePattern(pattern), handler)]
    {
      Add(ANY_METHOD, pattern, handler);
    }

    method Dispatch(verb: string, path: string) returns (o: Outcome<H>)
      ensures Decides(routes, verb, path, o)
      ensures o.Handled? ==>
                && o.index < |routes|
                && (routes[o.index].verb == "*" || routes[o.index].verb == verb)
                && Match(routes[o.index].segments, Segments(path)) == Some(o.params)
                && o.handler == routes[o.index].handler
      ensures o.MethodNotAllowed? <==> Reached(routes, path) != {} && Allowed(routes, verb, path) == {}
      ensures o.NotFound? <==> Reached(routes, path) == {}
      ensures forall i :: o.Handled? && i in Allowed(routes, verb, path) ==> o.index <= i
    {
      var anyPathMatched := false;
      for i := 0 to |routes|
        invariant NoneTakes(routes, i, verb, path)
        invariant anyPathMatched <==> SomePathMatches(routes, i, path)
      {
        var route := routes[i];
        var matched := MatchPath(route.segments, path);
        if matched.Some? {
          anyPathMatched := true;
          if route.verb == ANY_METHOD || route.verb == verb {
            o := Handled(i, route.handler, matched.value);
            OutcomeIs(routes, verb, path, o);
            return;
          }
        }
      }
      o := if anyPathMatched then MethodNotAllowed else NotFound;
      OutcomeIs(routes, verb, path, o);
    }
  }

  /** The promise determines the outcome. */
  lemma DecidesOnce<H>(routes: seq<RouteEntry<H>>, verb: string, path: string, o: Outcome<H>, o': Outcome<H>)
    requires Decides(routes, verb, path, o) && Decides(routes, verb, path, o')
    ensures o == o'
  {
    if o.Handled? && o'.Handled? {
      assert Takes(routes[o.index], verb, path) && Takes(routes[o'.index], verb, path);
    } else if o.Handled? {
      assert Takes(routes[o.index], verb, path);
    } else if o'.Handled? {
      assert Takes(routes[o'.index], verb, path);
    }
  }

  /** Paths with the same components are routed alike, so redundant slashes do not matter. */
  lemma SlashesDoNotMatter<H>(routes: seq<RouteEntry<H>>, verb: string, a: string, b: string, o: Outcome<H>)
    ensures Decides(routes, verb, a + "//" + b, o) <==> Decides(routes, verb, a + "/" + b, o)
    ensures Decides(routes, verb, "/" + a, o) <==> Decides(routes, verb, a, o)
    ensures Decides(routes, verb, a + "/", o) <==> Decides(routes, verb, a, o)
  {
    RedundantSlashes(a, b);
    SameComponents(routes, verb, a + "//" + b, a + "/" + b, o);
    SameComponents(routes, verb, "/" + a, a, o);
    SameComponents(routes, verb, a + "/", a, o);
  }

  lemma SameComponents<H>(routes: seq<RouteEntry<H>>, verb: string, p: string, q: string, o: Outcome<H>)
    requires Segments(p) == Segments(q)
    ensures Decides(routes, verb, p, o) <==> Decides(routes, verb, q, o)
  {
    assert forall r: RouteEntry<H> <- routes :: PathMatches(r, p) == PathMatches(r, q) && Takes(r, verb, p) == Takes(r, verb, q);
  }

  /** Routes added later never change the answer to a request that is already handled. */
  lemma LaterRoutesDoNotInterfere<H>(routes: seq<RouteEntry<H>>, more: seq<RouteEntry<H>>,
                                     verb: string, path: string, o: Outcome<H>)
    requires Decides(routes, verb, path, o) && o.Handled?
    ensures Decides(routes + more, verb, path, o)
  {
    var all := routes + more;
    assert forall j :: 0 <= j < |routes| ==> all[j] == routes[j];
  }

  /**
   * The proxy's catch-all, registered last, leaves no 404 and no 405: whatever no earlier
   * route takes goes to it, with the whole path captured.
   */
  lemma CatchAllTakesTheRest<H>(routes: seq<RouteEntry<H>>, proxy: H, verb: string, path: string, o: Outcome<H>)
    requires Decides(routes + [RouteEntry(ANY_METHOD, ParsePattern("/*path"), proxy)], verb, path, o)
    ensures o.Handled?
    ensures o.index == |routes| <==> forall r <- routes :: !Takes(r, verb, path)
    ensures o.index < |routes| ==> Decides(routes, verb, path, o)
    ensures o.index == |routes| ==>
              o.params == if Segments(path) == [] then map[] else map["path" := Join(Segments(path), '/')]
  {
    var rest := RouteEntry(ANY_METHOD, ParsePattern("/*path"), proxy);
    var all := routes + [rest];
    CatchAllPattern();
    CatchAllMatches(Segments(path));
    assert all[|routes|] == rest && Takes(all[|routes|], verb, path);
    assert forall j :: 0 <= j < |routes| ==> all[j] == routes[j];
    if o.index < |routes| {
      assert Takes(routes[o.index], verb, path) && routes[o.index] in routes;
    }
  }

  lemma CatchAllPattern()
    ensures ParsePattern("/*path") == [Wildcard("path")]
  {
    RedundantSlashes("*path", "");
    SplitWhole("*path", '/');
    assert "/" + "*path" == "/*path";
    assert Segments("*path") == ["*path"];
    assert "*path"[1..] == "path";
  }

  lemma CatchAllMatches(segs: seq<string>)
    ensures Match([Wildcard("path")], segs)
            == Some(if segs == [] then map[] else map["path" := Join(segs, '/')])
  {
    var pat := [Wildcard("path")];
    assert Captures(pat, segs, 0) == map[];
    if segs != [] {
      assert segs[0..] == segs;
    }
    assert Match(pat, segs) == Some(Captures(pat, segs, 1));
  }
}
