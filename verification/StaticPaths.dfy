/** Static-file paths: `sanitize_path`, what it is fed by the router, and joining onto the base directory. */
module StaticPaths {
  import opened Lists
  import opened Routing

  /** `std::path::Component` on Unix. */
  datatype Component = RootDir | CurDir | ParentDir | Normal(name: string)

  predicate Absolute(path: string) {
    path != "" && path[0] == '/'
  }

  function NameComponents(segs: seq<string>): seq<Component> {
    if segs == [] then []
    else
      NameComponents(segs[..|segs| - 1]) +
      var seg := segs[|segs| - 1];
      if seg == "." then [] else if seg == ".." then [ParentDir] else [Normal(seg)]
  }

  /** The component a path opens with: a root, or a "." that is kept only there. */
  function Opening(path: string): seq<Component> {
    if Absolute(path) then [RootDir]
    else if Split(path, '/')[0] == "." then [CurDir]
    else []
  }

  /** `Path::components`: repeated slashes vanish, and so does "." except in front. */
  function Components(path: string): seq<Component> {
    Opening(path) + NameComponents(Segments(path))
  }

  /** `PathBuf::push`, and `Path::join`: an absolute argument replaces, a relative one is appended. */
  function Push(buf: string, part: string): string {
    if Absolute(part) then part
    else if buf != "" && buf[|buf| - 1] != '/' then buf + ['/'] + part
    else buf + part
  }

  /** The segments that survive sanitising. */
  function Kept(segs: seq<string>): seq<string> {
    if segs == [] then []
    else Kept(segs[..|segs| - 1]) + (if segs[|segs| - 1] == "." then [] else [segs[|segs| - 1]])
  }

  predicate Rejected(path: string) {
    Absolute(path) || ".." in Segments(path)
  }

  /** What `sanitize_path` makes of a path it lets through. */
  function Safe(path: string): string {
    Join(Kept(Segments(path)), '/')
  }

  method SanitizePath(path: string) returns (r: Option<string>)
    ensures r.None? <==> (path != "" && path[0] == '/') || ".." in Segments(path)
    ensures r.Some? ==> r.value == Safe(path)
  {
    ComponentsReject(path);
    NormalsAreComponents(path);
    r := PushNormals(Components(path));
    if r.Some? {
      NamesAreKept(path);
    }
  }

  predicate Unsafe(c: Component) {
    c.RootDir? || c.ParentDir?
  }

  predicate ProperNames(cs: seq<Component>) {
    forall i :: 0 <= i < |cs| && cs[i].Normal? ==> IsComponent(cs[i].name)
  }

  /** The loop of `sanitize_path` over the components. */
  method PushNormals(components: seq<Component>) returns (r: Option<string>)
    requires ProperNames(components)
    ensures r.None? <==> exists i :: 0 <= i < |components| && Unsafe(components[i])
    ensures r.Some? ==> r.value == Join(Names(components), '/')
  {
    var result := "";
    ghost var names: seq<string> := [];
    for i := 0 to |components|
      invariant forall j :: 0 <= j < i ==> !Unsafe(components[j])
      invariant names == Names(components[..i]) && AreComponents(names)
      invariant result == Join(names, '/')
    {
      var c := components[i];
      assert components[..i + 1] == components[..i] + [c];
      NamesStep(components[..i], c);
      match c
      case Normal(name) =>
        PushJoin(names, name);
        result := Push(result, name);
        names := names + [name];
      case CurDir =>
      case _ =>
        return None;
    }
    assert components[..|components|] == components;
    return Some(result);
  }

  // ----- What the loop pushes -----

  function Names(cs: seq<Component>): seq<string> {
    if cs == [] then []
    else
      var c := cs[|cs| - 1];
      Names(cs[..|cs| - 1]) + (if c.Normal? then [c.name] else [])
  }

  lemma NamesStep(cs: seq<Component>, c: Component)
    ensures Names(cs + [c]) == Names(cs) + (if c.Normal? then [c.name] else [])
  {
    assert (cs + [c])[..|cs|] == cs;
  }

  lemma {:induction false} JoinSnoc(parts: seq<string>, last: string)
    requires parts != []
    ensures Join(parts + [last], '/') == Join(parts, '/') + ['/'] + last
  {
    var longer := parts + [last];
    if |parts| == 1 {
      assert longer[1..] == [last];
    } else {
      assert longer[1..] == parts[1..] + [last];
      JoinSnoc(parts[1..], last);
    }
  }

  lemma {:induction false} JoinEnds(parts: seq<string>)
    requires parts != [] && AreComponents(parts)
    ensures Join(parts, '/') != "" && Join(parts, '/')[0] == parts[0][0]
    ensures Join(parts, '/')[|Join(parts, '/')| - 1] != '/'
  {
    if |parts| > 1 {
      JoinEnds(parts[1..]);
    } else {
      var s := parts[0];
      assert s[|s| - 1] in s;
    }
  }

  /** Pushing a component onto joined components joins one more. */
  lemma PushJoin(parts: seq<string>, last: string)
    requires AreComponents(parts) && IsComponent(last)
    ensures Push(Join(parts, '/'), last) == Join(parts + [last], '/')
  {
    assert last[0] in last;
    if parts == [] {
      assert parts + [last] == [last];
    } else {
      JoinEnds(parts);
      JoinSnoc(parts, last);
    }
  }

  lemma {:induction false} NameComponentsAre(segs: seq<string>)
    ensures forall c <- NameComponents(segs) :: c.ParentDir? || (c.Normal? && c.name in segs && c.name != "." && c.name != "..")
    ensures ParentDir in NameComponents(segs) <==> ".." in segs
    ensures ".." !in segs ==> Names(NameComponents(segs)) == Kept(segs)
  {
    if segs != [] {
      var n := |segs| - 1;
      NameComponentsAre(segs[..n]);
      assert segs == segs[..n] + [segs[n]];
      var cs := NameComponents(segs);
      if segs[n] != "." {
        assert cs[..|cs| - 1] == NameComponents(segs[..n]);
      } else {
        assert cs == NameComponents(segs[..n]);
      }
    }
  }

  lemma NormalsAreComponents(path: string)
    ensures ProperNames(Components(path))
  {
    SegmentsAreComponents(path);
    var segs, cs := Segments(path), NameComponents(Segments(path));
    NameComponentsAre(segs);
    forall i | 0 <= i < |Components(path)| && Components(path)[i].Normal?
      ensures IsComponent(Components(path)[i].name)
    {
      assert Components(path)[i] in cs;
    }
  }

  lemma ComponentsReject(path: string)
    ensures Rejected(path) <==> exists i :: 0 <= i < |Components(path)| && Unsafe(Components(path)[i])
  {
    var opening, names, all := Opening(path), NameComponents(Segments(path)), Components(path);
    NameComponentsAre(Segments(path));
    assert Rejected(path) <==> RootDir in opening || ParentDir in names;
    assert forall c :: c in all <==> c in opening || c in names;
    assert (exists i :: 0 <= i < |all| && Unsafe(all[i])) <==> (exists c <- all :: Unsafe(c));
  }

  lemma {:induction false} NamesAppend(a: seq<Component>, b: seq<Component>)
    ensures Names(a + b) == Names(a) + Names(b)
  {
    if b == [] {
      assert a + b == a;
    } else {
      assert (a + b)[..|a + b| - 1] == a + b[..|b| - 1];
      NamesAppend(a, b[..|b| - 1]);
    }
  }

  lemma NamesAreKept(path: string)
    requires !Rejected(path)
    ensures Names(Components(path)) == Kept(Segments(path))
  {
    NameComponentsAre(Segments(path));
    NamesAppend(Opening(path), NameComponents(Segments(path)));
    assert Names(Opening(path)) == [];
  }

  // ----- What sanitising guarantees -----

  lemma {:induction false} KeptWhat(segs: seq<string>)
    ensures forall s :: s in Kept(segs) <==> s in segs && s != "."
    ensures AreComponents(segs) ==> AreComponents(Kept(segs))
    ensures "." !in segs ==> Kept(segs) == segs
  {
    if segs != [] {
      var n := |segs| - 1;
      KeptWhat(segs[..n]);
      assert segs == segs[..n] + [segs[n]];
    }
  }

  /** What comes out is a relative path whose segments are the ones kept. */
  lemma SafeShape(path: string)
    ensures Segments(Safe(path)) == Kept(Segments(path))
    ensures !Absolute(Safe(path)) && Opening(Safe(path)) == []
  {
    var kept := Kept(Segments(path));
    SegmentsAreComponents(path);
    KeptWhat(Segments(path));
    SegmentsJoin(kept);
    if kept == [] {
      SplitWhole("", '/');
    } else {
      JoinEnds(kept);
      assert kept[0][0] in kept[0];
      SplitJoin(kept, '/');
      assert kept[0] in kept;
    }
  }

  lemma RelativeComponents(path: string)
    requires Opening(path) == []
    ensures Components(path) == NameComponents(Segments(path))
  {
    assert [] + NameComponents(Segments(path)) == NameComponents(Segments(path));
  }

  /** Sanitising what was sanitised changes nothing. */
  lemma SanitizeIdempotent(path: string)
    requires !Rejected(path)
    ensures !Rejected(Safe(path)) && Safe(Safe(path)) == Safe(path)
  {
    SafeShape(path);
    KeptWhat(Segments(path));
    KeptWhat(Kept(Segments(path)));
  }

  lemma {:induction false} NameComponentsAppend(a: seq<string>, b: seq<string>)
    ensures NameComponents(a + b) == NameComponents(a) + NameComponents(b)
  {
    if b == [] {
      assert a + b == a;
    } else {
      var n := |b| - 1;
      assert (a + b)[..|a + b| - 1] == a + b[..n];
      NameComponentsAppend(a, b[..n]);
    }
  }

  lemma OpeningBehindSlash(dir: string, rest: string)
    requires dir != ""
    ensures Opening(dir + ['/'] + rest) == Opening(dir)
  {
    SplitAppend(dir, rest, '/');
  }

  /** Appending a relative path behind a slash appends its names and keeps the opening. */
  lemma ComponentsBehindSlash(dir: string, rest: string)
    requires dir != "" && Opening(rest) == []
    ensures Components(dir + ['/'] + rest) == Components(dir) + Components(rest)
  {
    OpeningBehindSlash(dir, rest);
    SegmentsAppend(dir, rest);
    NameComponentsAppend(Segments(dir), Segments(rest));
  }

  lemma ComponentsOfRooted(rest: string)
    ensures Components(['/'] + rest) == [RootDir] + NameComponents(Segments(rest))
  {
    assert "" + ['/'] + rest == ['/'] + rest;
    SegmentsAppend("", rest);
    SegmentsOfEmpty();
    assert [] + Segments(rest) == Segments(rest);
  }

  lemma SegmentsOfEmpty()
    ensures Segments("") == [] && Components("") == []
  {
    SplitWhole("", '/');
  }

  lemma TrailingSlash(dir: string)
    requires dir != ""
    ensures Components(dir + ['/']) == Components(dir)
  {
    SegmentsOfEmpty();
    ComponentsBehindSlash(dir, "");
    assert dir + ['/'] + "" == dir + ['/'];
    assert Components(dir) + [] == Components(dir);
  }

  lemma ComponentsOfRoot()
    ensures Components(['/']) == [RootDir]
  {
    ComponentsOfRooted("");
    assert ['/'] + "" == ['/'];
    SegmentsOfEmpty();
  }

  lemma JoinBehindRoot(rest: string)
    requires Opening(rest) == []
    ensures Components(['/'] + rest) == Components(['/']) + Components(rest)
  {
    ComponentsOfRooted(rest);
    ComponentsOfRoot();
    RelativeComponents(rest);
  }

  lemma JoinBehindTrailingSlash(dir: string, rest: string)
    requires Opening(rest) == []
    ensures Components(dir + ['/'] + rest) == Components(dir + ['/']) + Components(rest)
  {
    if dir == "" {
      JoinBehindRoot(rest);
      assert dir + ['/'] == ['/'];
    } else {
      ComponentsBehindSlash(dir, rest);
      TrailingSlash(dir);
    }
  }

  lemma PushExtends(base: string, rest: string)
    requires !Absolute(rest)
    ensures base <= Push(base, rest)
    ensures Push(base, rest) == if base == "" then rest
                                else if base[|base| - 1] != '/' then base + ['/'] + rest
                                else base[..|base| - 1] + ['/'] + rest
  {
    if base != "" && base[|base| - 1] == '/' {
      assert base == base[..|base| - 1] + ['/'];
    } else if base == "" {
      assert base + rest == rest;
    }
  }

  lemma JoinOntoNothing(rest: string)
    ensures Components(rest) == Components("") + Components(rest)
  {
    SegmentsOfEmpty();
  }

  lemma ComponentsOfJoin(base: string, rest: string)
    requires !Absolute(rest) && Opening(rest) == []
    ensures Components(Push(base, rest)) == Components(base) + Components(rest)
  {
    PushExtends(base, rest);
    if base == "" {
      JoinOntoNothing(rest);
    } else if base[|base| - 1] != '/' {
      ComponentsBehindSlash(base, rest);
    } else {
      assert base == base[..|base| - 1] + ['/'];
      JoinBehindTrailingSlash(base[..|base| - 1], rest);
    }
  }

  /** Joining onto the base only ever goes further down: the base's components, then ordinary names. */
  lemma JoinStaysInside(base: string, path: string)
    requires !Rejected(path)
    ensures base <= Push(base, Safe(path))
    ensures Components(Push(base, Safe(path))) == Components(base) + NameComponents(Kept(Segments(path)))
    ensures forall c <- NameComponents(Kept(Segments(path))) :: c.Normal?
  {
    SafeShape(path);
    RelativeComponents(Safe(path));
    ComponentsOfJoin(base, Safe(path));
    PushExtends(base, Safe(path));
    KeptIsNormal(Segments(path));
  }

  lemma KeptIsNormal(segs: seq<string>)
    requires ".." !in segs
    ensures forall c <- NameComponents(Kept(segs)) :: c.Normal?
  {
    KeptWhat(segs);
    NameComponentsAre(Kept(segs));
  }

  /** Sanitising is what keeps the base: an absolute path joined as it is would take its place. */
  lemma AbsoluteReplacesBase(base: string, path: string)
    requires Absolute(path)
    ensures Push(base, path) == path && Rejected(path)
  {
  }

  // ----- Fed by the router -----

  const STATIC_PATTERN: string := "/static/*filepath"

  /** `req.path_param("filepath").unwrap_or("")`. */
  function Filepath(params: Params): string {
    if "filepath" in params then params["filepath"] else ""
  }

  lemma StaticPattern()
    ensures ParsePattern(STATIC_PATTERN) == [Literal("static"), Wildcard("filepath")]
  {
    CompileLiterals();
    assert STATIC_PATTERN == "/" + ("static" + ['/'] + "*filepath");
    CompilePair("static", "*filepath");
  }

  lemma CompilePair(first: string, second: string)
    requires IsComponent(first) && IsComponent(second)
    ensures ParsePattern("/" + (first + ['/'] + second)) == [CompileSegment(first), CompileSegment(second)]
  {
    TwoComponents(first, second);
  }

  lemma CompileLiterals()
    ensures CompileSegment("static") == Literal("static")
    ensures CompileSegment("*filepath") == Wildcard("filepath")
    ensures IsComponent("static") && IsComponent("*filepath")
  {
    assert "*filepath"[1..] == "filepath";
  }

  lemma StaticCapture(segs: seq<string>)
    requires Match([Literal("static"), Wildcard("filepath")], segs).Some?
    ensures segs != [] && segs[0] == "static"
    ensures Match([Literal("static"), Wildcard("filepath")], segs).value
            == (if |segs| == 1 then map[] else map["filepath" := Join(segs[1..], '/')])
  {
    var pat := [Literal("static"), Wildcard("filepath")];
    WellFormedFixed(pat);
    assert Captures(pat, segs, 0) == map[];
    assert Captures(pat, segs, 1) == map[];
  }

  /**
   * End to end, for every request path routed to the static files: the capture's segments are
   * the path's behind "static", the request is refused exactly if one of them is "..",
   * and otherwise the file looked up is those segments less ".".
   */
  lemma StaticRequest(path: string, params: Params)
    ensures Match(ParsePattern(STATIC_PATTERN), Segments(path)) == Some(params) ==>
              && Segments(path) != []
              && Segments(Filepath(params)) == Segments(path)[1..]
              && (Rejected(Filepath(params)) <==> ".." in Segments(path)[1..])
              && Segments(Safe(Filepath(params))) == Kept(Segments(path)[1..])
  {
    var segs := Segments(path);
    StaticPattern();
    if Match([Literal("static"), Wildcard("filepath")], segs) == Some(params) {
      StaticCapture(segs);
      SegmentsAreComponents(path);
      FilepathShape(segs, params);
      SafeShape(Filepath(params));
    }
  }

  /** And the paths routed there are exactly those below "static". */
  lemma StaticRouted(path: string)
    ensures Match(ParsePattern(STATIC_PATTERN), Segments(path)).Some?
            <==> Segments(path) != [] && Segments(path)[0] == "static"
  {
    StaticPattern();
    StaticMatches(Segments(path));
  }

  lemma StaticMatches(segs: seq<string>)
    ensures Match([Literal("static"), Wildcard("filepath")], segs).Some? <==> segs != [] && segs[0] == "static"
  {
    var pat := [Literal("static"), Wildcard("filepath")];
    WellFormedFixed(pat);
    assert pat[0] == Literal("static");
  }

  lemma FilepathShape(segs: seq<string>, params: Params)
    requires AreComponents(segs) && segs != []
    requires params == if |segs| == 1 then map[] else map["filepath" := Join(segs[1..], '/')]
    ensures Segments(Filepath(params)) == segs[1..] && !Absolute(Filepath(params))
  {
    if |segs| == 1 {
      SegmentsOfEmpty();
    } else {
      SegmentsJoin(segs[1..]);
      JoinEnds(segs[1..]);
      assert segs[1][0] in segs[1];
    }
  }
}
