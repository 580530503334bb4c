/** Route patterns and path matching. */
module Routing {
  import opened Lists

  datatype PathSegment = Literal(text: string) | Param(name: string) | Wildcard(name: string)

  type Params = map<string, string>

  function NonEmpty(parts: seq<string>): seq<string> {
    if parts == [] then []
    else (if parts[0] == "" then [] else [parts[0]]) + NonEmpty(parts[1..])
  }

  /** The non-empty components of a path. */
  function Segments(path: string): seq<string> {
    NonEmpty(Split(path, '/'))
  }

  function CompileSegment(seg: string): PathSegment {
    if seg != "" && seg[0] == '*' then Wildcard(seg[1..])
    else if seg != "" && seg[0] == ':' then Param(seg[1..])
    else Literal(seg)
  }

  function ParsePattern(pattern: string): seq<PathSegment> {
    var segs := Segments(pattern);
    seq(|segs|, i requires 0 <= i < |segs| => CompileSegment(segs[i]))
  }

  /** The text of a compiled segment. */
  function Show(seg: PathSegment): string {
    match seg
    case Literal(text) => text
    case Param(name) => ":" + name
    case Wildcard(name) => "*" + name
  }

  // ----- Components -----

  predicate IsComponent(s: string) {
    s != "" && '/' !in s
  }

  predicate AreComponents(segs: seq<string>) {
    forall i :: 0 <= i < |segs| ==> IsComponent(segs[i])
  }

  lemma {:induction false} NonEmptyAt(parts: seq<string>, k: nat)
    requires k <= |parts|
    ensures NonEmpty(parts) == NonEmpty(parts[..k]) + NonEmpty(parts[k..])
  {
    if k > 0 {
      NonEmptyAt(parts[1..], k - 1);
      assert parts[1..][..k - 1] == parts[..k][1..];
      assert parts[1..][k - 1..] == parts[k..];
    } else {
      assert parts[0..] == parts;
    }
  }

  lemma NonEmptyAppend(a: seq<string>, b: seq<string>)
    ensures NonEmpty(a + b) == NonEmpty(a) + NonEmpty(b)
  {
    NonEmptyAt(a + b, |a|);
    assert (a + b)[..|a|] == a && (a + b)[|a|..] == b;
  }

  lemma {:induction false} NonEmptyKeeps(parts: seq<string>)
    ensures forall i :: 0 <= i < |NonEmpty(parts)| ==> NonEmpty(parts)[i] in parts && NonEmpty(parts)[i] != ""
    ensures (forall i :: 0 <= i < |parts| ==> parts[i] != "") ==> NonEmpty(parts) == parts
  {
    if parts != [] {
      NonEmptyKeeps(parts[1..]);
      assert parts == [parts[0]] + parts[1..];
      assert forall i :: 0 <= i < |parts| - 1 ==> parts[1..][i] == parts[i + 1];
    }
  }

  lemma SegmentsAreComponents(path: string)
    ensures AreComponents(Segments(path))
  {
    SplitPieces(path, '/');
    NonEmptyKeeps(Split(path, '/'));
  }

  lemma SegmentsAppend(a: string, b: string)
    ensures Segments(a + ['/'] + b) == Segments(a) + Segments(b)
  {
    SplitAppend(a, b, '/');
    NonEmptyAppend(Split(a, '/'), Split(b, '/'));
  }

  lemma SegmentsJoin(segs: seq<string>)
    requires AreComponents(segs)
    ensures Segments(Join(segs, '/')) == segs
  {
    if segs != [] {
      SplitJoin(segs, '/');
      NonEmptyKeeps(segs);
    }
  }

  /** A slash beside another one, or at either end, changes nothing. */
  lemma RedundantSlashes(a: string, b: string)
    ensures Segments(a + "//" + b) == Segments(a + "/" + b)
    ensures Segments("/" + a) == Segments(a) == Segments(a + "/")
  {
    assert a + "//" + b == a + ['/'] + ("" + ['/'] + b);
    assert a + "/" + b == a + ['/'] + b;
    assert "/" + a == "" + ['/'] + a;
    assert a + "/" == a + ['/'] + "";
    SegmentsAppend(a, "" + ['/'] + b);
    SegmentsAppend("", b);
    SegmentsAppend(a, b);
    SegmentsAppend("", a);
    SegmentsAppend(a, "");
  }

  /** Compiling loses nothing: patterns compile alike exactly if their components are the same. */
  lemma SamePatternIffSameComponents(p: string, q: string)
    ensures ParsePattern(p) == ParsePattern(q) <==> Segments(p) == Segments(q)
  {
    if ParsePattern(p) == ParsePattern(q) {
      forall i | 0 <= i < |Segments(p)| ensures |Segments(q)| == |Segments(p)| && Segments(p)[i] == Segments(q)[i] {
        assert ParsePattern(p)[i] == ParsePattern(q)[i];
        ShowCompiled(Segments(p)[i]);
        ShowCompiled(Segments(q)[i]);
      }
      assert |ParsePattern(p)| == |Segments(p)| && |ParsePattern(q)| == |Segments(q)|;
    }
  }

  lemma ShowCompiled(seg: string)
    ensures Show(CompileSegment(seg)) == seg
  {
  }

  predicate Starts(s: string, c: char) {
    s != "" && s[0] == c
  }

  /** The pattern syntax: `*name` is a wildcard, `:name` a parameter, anything else stands for itself. */
  lemma PatternSyntax(pattern: string, i: nat)
    requires i < |Segments(pattern)|
    ensures |ParsePattern(pattern)| == |Segments(pattern)|
    ensures var s, seg := Segments(pattern)[i], ParsePattern(pattern)[i];
      && s != ""
      && (seg == Wildcard(s[1..]) <==> s[0] == '*')
      && (seg == Param(s[1..]) <==> s[0] == ':')
      && (seg == Literal(s) <==> s[0] != '*' && s[0] != ':')
  {
    SegmentsAreComponents(pattern);
  }

  // ----- Matching -----

  predicate HasTail(pat: seq<PathSegment>) {
    pat != [] && pat[|pat| - 1].Wildcard?
  }

  predicate LengthFits(pat: seq<PathSegment>, segs: seq<string>) {
    if HasTail(pat) then |segs| >= |pat| - 1 else |segs| == |pat|
  }

  /** The number of pattern segments in front of the first wildcard. */
  function FixedLength(pat: seq<PathSegment>): (n: nat)
    ensures n <= |pat|
    ensures forall i :: 0 <= i < n ==> !pat[i].Wildcard?
    ensures n < |pat| ==> pat[n].Wildcard?
  {
    if pat == [] || pat[0].Wildcard? then 0 else 1 + FixedLength(pat[1..])
  }

  /** What segment `i` of the pattern captures, if it captures anything. */
  function Captured(pat: seq<PathSegment>, segs: seq<string>, i: nat): Option<string>
    requires i < |pat|
  {
    if i >= |segs| then None
    else match pat[i]
      case Literal(_) => None
      case Param(_) => Some(segs[i])
      case Wildcard(_) => Some(Join(segs[i..], '/'))
  }

  /** The map after the first `n` pattern segments: later captures overwrite earlier ones. */
  function Captures(pat: seq<PathSegment>, segs: seq<string>, n: nat): Params
    requires n <= |pat|
  {
    if n == 0 then map[]
    else
      var before := Captures(pat, segs, n - 1);
      match Captured(pat, segs, n - 1)
      case None => before
      case Some(value) => before[NameOf(pat[n - 1]) := value]
  }

  function NameOf(seg: PathSegment): string {
    if seg.Literal? then "" else seg.name
  }

  predicate LiteralsAgree(pat: seq<PathSegment>, segs: seq<string>, n: nat)
    requires n <= |pat|
  {
    forall i :: 0 <= i < n && pat[i].Literal? ==> i < |segs| && segs[i] == pat[i].text
  }

  function Match(pat: seq<PathSegment>, segs: seq<string>): Option<Params> {
    var n := FixedLength(pat);
    if LengthFits(pat, segs) && LiteralsAgree(pat, segs, n)
    then Some(Captures(pat, segs, if n < |pat| then n + 1 else n))
    else None
  }

  method MatchPath(pat: seq<PathSegment>, path: string) returns (r: Option<Params>)
    ensures r == Match(pat, Segments(path))
  {
    var segs := Segments(path);
    var hasWildcard := |pat| > 0 && pat[|pat| - 1].Wildcard?;
    if hasWildcard {
      if |segs| < |pat| - 1 {
        return None;
      }
    } else if |segs| != |pat| {
      return None;
    }
    ghost var fixed := FixedLength(pat);
    var params: Params := map[];
    for i := 0 to |pat|
      invariant i <= fixed
      invariant LiteralsAgree(pat, segs, i)
      invariant params == Captures(pat, segs, i)
    {
      match pat[i]
      case Literal(text) =>
        if i >= |segs| || segs[i] != text {
          assert i < fixed;
          return None;
        }
      case Param(name) =>
        if i >= |segs| {
          return None;
        }
        params := params[name := segs[i]];
      case Wildcard(name) =>
        if i < |segs| {
          params := params[name := Join(segs[i..], '/')];
        }
        assert i == fixed;
        return Some(params);
    }
    return Some(params);
  }

  // ----- Matching is substitution -----

  /** A wildcard stands only at the end, as the pattern syntax demands. */
  predicate WellFormed(pat: seq<PathSegment>) {
    forall i :: 0 <= i < |pat| - 1 ==> !pat[i].Wildcard?
  }

  /** The components that a segment stands for under an assignment. */
  function Expand(seg: PathSegment, params: Params): seq<string> {
    match seg
    case Literal(text) => [text]
    case Param(name) => if name in params then [params[name]] else []
    case Wildcard(name) => if name in params then Split(params[name], '/') else []
  }

  /** The components that the first `k` segments stand for, in order. */
  function RenderFirst(pat: seq<PathSegment>, params: Params, k: nat): seq<string>
    requires k <= |pat|
  {
    if k == 0 then [] else RenderFirst(pat, params, k - 1) + Expand(pat[k - 1], params)
  }

  function Render(pat: seq<PathSegment>, params: Params): seq<string> {
    RenderFirst(pat, params, |pat|)
  }

  /** Parameters stand for one component, wildcards for one or more, and nothing else is assigned. */
  ghost predicate Assigns(pat: seq<PathSegment>, params: Params) {
    && (forall i :: 0 <= i < |pat| && pat[i].Param? ==> pat[i].name in params && IsComponent(params[pat[i].name]))
    && (forall i :: 0 <= i < |pat| && pat[i].Wildcard? && pat[i].name in params ==>
          forall piece <- Split(params[pat[i].name], '/') :: piece != "")
    && (forall name <- params :: Names(pat, |pat|, name))
  }

  /** Substituting `params` into the pattern gives exactly these components. */
  ghost predicate Instantiates(pat: seq<PathSegment>, params: Params, segs: seq<string>) {
    Assigns(pat, params) && Render(pat, params) == segs
  }

  /** Segments that share a name capture the same thing. */
  ghost predicate Consistent(pat: seq<PathSegment>, segs: seq<string>) {
    forall i, j :: 0 <= i < j < |pat| && !pat[i].Literal? && !pat[j].Literal? && pat[i].name == pat[j].name ==>
      Captured(pat, segs, i) == Captured(pat, segs, j)
  }

  ghost predicate DistinctNames(pat: seq<PathSegment>) {
    forall i, j :: 0 <= i < j < |pat| && !pat[i].Literal? && !pat[j].Literal? ==> pat[i].name != pat[j].name
  }

  lemma WellFormedFixed(pat: seq<PathSegment>)
    requires WellFormed(pat)
    ensures FixedLength(pat) == (if HasTail(pat) then |pat| - 1 else |pat|)
  {
  }

  function Lookup(params: Params, name: string): Option<string> {
    if name in params then Some(params[name]) else None
  }

  predicate Names(pat: seq<PathSegment>, n: nat, name: string)
    requires n <= |pat|
  {
    exists i :: 0 <= i < n && !pat[i].Literal? && pat[i].name == name
  }

  lemma {:induction false} CapturesNames(pat: seq<PathSegment>, segs: seq<string>, n: nat)
    requires n <= |pat|
    ensures forall name <- Captures(pat, segs, n) :: Names(pat, n, name)
  {
    if n > 0 {
      CapturesNames(pat, segs, n - 1);
      forall name | Names(pat, n - 1, name) ensures Names(pat, n, name) {
      }
    }
  }

  /** The map holds, for each of the first `n` segments, what that segment captured. */
  lemma {:induction false} CapturesWhat(pat: seq<PathSegment>, segs: seq<string>, n: nat)
    requires n <= |pat| && Consistent(pat, segs)
    ensures forall i :: 0 <= i < n && !pat[i].Literal? ==>
              Lookup(Captures(pat, segs, n), pat[i].name) == Captured(pat, segs, i)
  {
    if n > 0 {
      CapturesWhat(pat, segs, n - 1);
      forall i | 0 <= i < n && !pat[i].Literal?
        ensures Lookup(Captures(pat, segs, n), pat[i].name) == Captured(pat, segs, i)
      {
        if i == n - 1 {
          UnnamedSoFar(pat, segs, n - 1);
        }
      }
    }
  }

  /** A segment that captures nothing finds no earlier capture under its name. */
  lemma UnnamedSoFar(pat: seq<PathSegment>, segs: seq<string>, n: nat)
    requires n < |pat| && Consistent(pat, segs) && !pat[n].Literal?
    requires forall i :: 0 <= i < n && !pat[i].Literal? ==>
               Lookup(Captures(pat, segs, n), pat[i].name) == Captured(pat, segs, i)
    ensures Captured(pat, segs, n) == None ==> pat[n].name !in Captures(pat, segs, n)
  {
    CapturesNames(pat, segs, n);
    if pat[n].name in Captures(pat, segs, n) {
      var i :| 0 <= i < n && !pat[i].Literal? && pat[i].name == pat[n].name;
      assert Captured(pat, segs, i) == Captured(pat, segs, n);
    }
  }

  /** Every named segment in front of the wildcard reads its own component back from `params`. */
  ghost predicate ReadsBack(pat: seq<PathSegment>, params: Params, segs: seq<string>, k: nat)
    requires k <= |pat|
  {
    && k <= |segs|
    && forall i :: 0 <= i < k ==> Expand(pat[i], params) == [segs[i]]
  }

  lemma {:induction false} RenderReadsBack(pat: seq<PathSegment>, params: Params, segs: seq<string>, k: nat)
    requires k <= |pat| && ReadsBack(pat, params, segs, k)
    ensures RenderFirst(pat, params, k) == segs[..k]
  {
    if k > 0 {
      RenderReadsBack(pat, params, segs, k - 1);
      assert segs[..k] == segs[..k - 1] + [segs[k - 1]];
    }
  }

  /** The first `k` segments stand for one component each. */
  ghost predicate Single(pat: seq<PathSegment>, params: Params, k: nat)
    requires k <= |pat|
  {
    forall i :: 0 <= i < k ==> |Expand(pat[i], params)| == 1
  }

  lemma {:induction false} RenderFixed(pat: seq<PathSegment>, params: Params, k: nat)
    requires k <= |pat| && Single(pat, params, k)
    ensures |RenderFirst(pat, params, k)| == k
    ensures ReadsBack(pat, params, RenderFirst(pat, params, k), k)
  {
    if k > 0 {
      RenderFixed(pat, params, k - 1);
      ReadsBackExtends(pat, params, RenderFirst(pat, params, k - 1), Expand(pat[k - 1], params), k - 1);
    }
  }

  lemma ReadsBackExtends(pat: seq<PathSegment>, params: Params, fixed: seq<string>, tail: seq<string>, k: nat)
    requires k <= |pat| && ReadsBack(pat, params, fixed, k)
    ensures ReadsBack(pat, params, fixed + tail, k)
  {
    forall i | 0 <= i < k ensures Expand(pat[i], params) == [(fixed + tail)[i]] {
      assert (fixed + tail)[i] == fixed[i];
    }
  }

  /** What a well-formed pattern's tail stands for, if it has one. */
  function Tail(pat: seq<PathSegment>, params: Params): seq<string> {
    var n := FixedLength(pat);
    if n < |pat| then Expand(pat[n], params) else []
  }

  lemma RenderWhole(pat: seq<PathSegment>, params: Params)
    requires WellFormed(pat)
    ensures Render(pat, params) == RenderFirst(pat, params, FixedLength(pat)) + Tail(pat, params)
  {
    WellFormedFixed(pat);
  }

  lemma MatchReadsBack(pat: seq<PathSegment>, segs: seq<string>)
    requires WellFormed(pat) && Consistent(pat, segs) && Match(pat, segs).Some?
    ensures ReadsBack(pat, Match(pat, segs).value, segs, FixedLength(pat))
  {
    WellFormedFixed(pat);
    CapturesWhat(pat, segs, |pat|);
  }

  lemma TailReadsBack(pat: seq<PathSegment>, segs: seq<string>)
    requires WellFormed(pat) && AreComponents(segs) && Consistent(pat, segs) && Match(pat, segs).Some?
    ensures FixedLength(pat) <= |segs|
    ensures Tail(pat, Match(pat, segs).value) == segs[FixedLength(pat)..]
  {
    var n := FixedLength(pat);
    WellFormedFixed(pat);
    CapturesWhat(pat, segs, |pat|);
    if n < |pat| && n < |segs| {
      assert Captured(pat, segs, n) == Some(Join(segs[n..], '/'));
      SplitJoin(segs[n..], '/');
    } else if n < |pat| {
      assert Captured(pat, segs, n) == None;
    }
  }

  lemma MatchAssigns(pat: seq<PathSegment>, segs: seq<string>)
    requires WellFormed(pat) && AreComponents(segs) && Consistent(pat, segs) && Match(pat, segs).Some?
    ensures Assigns(pat, Match(pat, segs).value)
  {
    var params := Match(pat, segs).value;
    var n := FixedLength(pat);
    WellFormedFixed(pat);
    MatchReadsBack(pat, segs);
    forall i | 0 <= i < |pat| && pat[i].Param?
      ensures pat[i].name in params && IsComponent(params[pat[i].name])
    {
      assert Expand(pat[i], params) == [segs[i]];
    }
    TailReadsBack(pat, segs);
    CapturesNames(pat, segs, |pat|);
  }

  lemma MatchInstantiates(pat: seq<PathSegment>, segs: seq<string>)
    requires WellFormed(pat) && AreComponents(segs) && Consistent(pat, segs)
    requires Match(pat, segs).Some?
    ensures Instantiates(pat, Match(pat, segs).value, segs)
  {
    var params := Match(pat, segs).value;
    var n := FixedLength(pat);
    MatchAssigns(pat, segs);
    MatchReadsBack(pat, segs);
    RenderReadsBack(pat, params, segs, n);
    RenderWhole(pat, params);
    TailReadsBack(pat, segs);
    assert segs == segs[..n] + segs[n..];
  }

  /** The components of an instantiated path: one each for the fixed part, the rest for the tail. */
  lemma InstantiationShape(pat: seq<PathSegment>, params: Params, segs: seq<string>)
    requires WellFormed(pat) && Instantiates(pat, params, segs)
    ensures var n := FixedLength(pat);
      && ReadsBack(pat, params, segs, n)
      && segs[n..] == Tail(pat, params)
  {
    var n := FixedLength(pat);
    var fixed, tail := RenderFirst(pat, params, n), Tail(pat, params);
    AssignsSingle(pat, params);
    RenderFixed(pat, params, n);
    RenderWhole(pat, params);
    ReadsBackExtends(pat, params, fixed, tail, n);
    assert (fixed + tail)[n..] == tail;
  }

  lemma AssignsSingle(pat: seq<PathSegment>, params: Params)
    requires Assigns(pat, params)
    ensures Single(pat, params, FixedLength(pat))
  {
  }

  /** Under an instantiating assignment, every segment captures what it is assigned. */
  lemma InstantiationCaptures(pat: seq<PathSegment>, params: Params, segs: seq<string>, i: nat)
    requires WellFormed(pat) && Instantiates(pat, params, segs)
    requires i < |pat| && !pat[i].Literal?
    ensures Captured(pat, segs, i) == Lookup(params, pat[i].name)
  {
    var n := FixedLength(pat);
    WellFormedFixed(pat);
    InstantiationShape(pat, params, segs);
    if i == n {
      if pat[n].name in params {
        JoinSplit(params[pat[n].name], '/');
      } else {
        assert |segs| == n;
      }
    } else {
      assert Expand(pat[i], params) == [segs[i]];
    }
  }

  lemma InstantiationFits(pat: seq<PathSegment>, params: Params, segs: seq<string>)
    requires WellFormed(pat) && Instantiates(pat, params, segs)
    ensures LengthFits(pat, segs) && LiteralsAgree(pat, segs, FixedLength(pat))
  {
    WellFormedFixed(pat);
    InstantiationShape(pat, params, segs);
    forall i | 0 <= i < FixedLength(pat) && pat[i].Literal? ensures i < |segs| && segs[i] == pat[i].text {
      assert Expand(pat[i], params) == [segs[i]];
    }
  }

  /** `params` says of every named segment what that segment captures. */
  ghost predicate Explains(pat: seq<PathSegment>, params: Params, segs: seq<string>) {
    && (forall i :: 0 <= i < |pat| && !pat[i].Literal? ==> Lookup(params, pat[i].name) == Captured(pat, segs, i))
    && (forall name <- params :: Names(pat, |pat|, name))
  }

  lemma ExplanationIsCaptures(pat: seq<PathSegment>, params: Params, segs: seq<string>)
    requires Explains(pat, params, segs)
    ensures Consistent(pat, segs) && Captures(pat, segs, |pat|) == params
  {
    CapturesWhat(pat, segs, |pat|);
    CapturesNames(pat, segs, |pat|);
    var got := Captures(pat, segs, |pat|);
    forall name ensures Lookup(got, name) == Lookup(params, name) {
      if Names(pat, |pat|, name) {
        var i :| 0 <= i < |pat| && !pat[i].Literal? && pat[i].name == name;
        assert Lookup(got, pat[i].name) == Lookup(params, pat[i].name);
      }
    }
    SameLookups(got, params);
  }

  lemma SameLookups(a: Params, b: Params)
    requires forall name :: Lookup(a, name) == Lookup(b, name)
    ensures a == b
  {
    forall name ensures name in a <==> name in b {
      assert Lookup(a, name) == Lookup(b, name);
    }
    forall name | name in a ensures a[name] == b[name] {
      assert Lookup(a, name) == Lookup(b, name);
    }
  }

  lemma InstantiationMatches(pat: seq<PathSegment>, params: Params, segs: seq<string>)
    requires WellFormed(pat) && Instantiates(pat, params, segs)
    ensures Consistent(pat, segs) && Match(pat, segs) == Some(params)
  {
    WellFormedFixed(pat);
    InstantiationFits(pat, params, segs);
    forall i | 0 <= i < |pat| && !pat[i].Literal? ensures Lookup(params, pat[i].name) == Captured(pat, segs, i) {
      InstantiationCaptures(pat, params, segs, i);
    }
    ExplanationIsCaptures(pat, params, segs);
  }

  /**
   * Matching is substitution. The assignments that instantiate a pattern to a path are
   * exactly the matcher's result, provided segments of one name captured one value.
   */
  lemma MatchIsSubstitution(pat: seq<PathSegment>, path: string, params: Params)
    requires WellFormed(pat)
    ensures Instantiates(pat, params, Segments(path))
            <==> Match(pat, Segments(path)) == Some(params) && Consistent(pat, Segments(path))
  {
    var segs := Segments(path);
    SegmentsAreComponents(path);
    if Instantiates(pat, params, segs) {
      InstantiationMatches(pat, params, segs);
    } else if Match(pat, segs) == Some(params) && Consistent(pat, segs) {
      MatchInstantiates(pat, segs);
    }
  }

  /** With distinct names there is no proviso. */
  lemma DistinctMatchIsSubstitution(pat: seq<PathSegment>, path: string, params: Params)
    requires WellFormed(pat) && DistinctNames(pat)
    ensures Match(pat, Segments(path)) == Some(params) <==> Instantiates(pat, params, Segments(path))
  {
    MatchIsSubstitution(pat, path, params);
  }

  /** The proviso is needed: a repeated name matches two components that no assignment gives. */
  lemma RepeatedNameMatchesMore()
    ensures var pat := [Param("a"), Param("a")];
      && WellFormed(pat)
      && Match(pat, ["x", "y"]).Some?
      && forall params :: !Instantiates(pat, params, ["x", "y"])
  {
    var pat := [Param("a"), Param("a")];
    assert Captured(pat, ["x", "y"], 0) != Captured(pat, ["x", "y"], 1);
    assert !Consistent(pat, ["x", "y"]);
    forall params ensures !Instantiates(pat, params, ["x", "y"]) {
      if Instantiates(pat, params, ["x", "y"]) {
        InstantiationMatches(pat, params, ["x", "y"]);
      }
    }
  }

  // ----- Matching in terms of the texts -----

  /** Component for component, the path says what the pattern says, or the pattern says `:name`. */
  predicate TextsAgree(ps: seq<string>, xs: seq<string>, n: nat)
    requires n <= |ps| && n <= |xs|
  {
    forall i :: 0 <= i < n ==> Starts(ps[i], ':') || ps[i] == xs[i]
  }

  predicate EndsInWildcard(ps: seq<string>) {
    ps != [] && Starts(ps[|ps| - 1], '*')
  }

  /** Pattern segment `i` is the last to capture under its name. */
  predicate LastOfName(ps: seq<string>, i: nat)
    requires i < |ps| && ps[i] != ""
  {
    forall j :: i < j < |ps| && (Starts(ps[j], ':') || Starts(ps[j], '*')) ==> ps[j][1..] != ps[i][1..]
  }

  /** As many components (with a wildcard: at least as many less one), agreeing where the pattern has no `:name`. */
  predicate TextsMatch(ps: seq<string>, xs: seq<string>) {
    if EndsInWildcard(ps) then |ps| - 1 <= |xs| && TextsAgree(ps, xs, |ps| - 1)
    else |ps| == |xs| && TextsAgree(ps, xs, |ps|)
  }

  /** Each `:name` holds the component it stands at, unless a later one overwrites it, and `*name` all the rest. */
  ghost predicate TextsCaptured(ps: seq<string>, xs: seq<string>, params: Params) {
    && (forall i :: 0 <= i < |ps| && i < |xs| && Starts(ps[i], ':') && LastOfName(ps, i) ==>
          Lookup(params, ps[i][1..]) == Some(xs[i]))
    && (EndsInWildcard(ps) && |ps| <= |xs| ==>
          Lookup(params, ps[|ps| - 1][1..]) == Some(Join(xs[|ps| - 1..], '/')))
  }

  /**
   * Matching and capturing in terms of the texts of pattern and path alone, for patterns with
   * a wildcard only at the end.
   */
  lemma MatchByText(pattern: string, path: string, params: Params)
    requires forall i :: 0 <= i < |Segments(pattern)| - 1 ==> !Starts(Segments(pattern)[i], '*')
    ensures Match(ParsePattern(pattern), Segments(path)).Some? <==> TextsMatch(Segments(pattern), Segments(path))
    ensures Match(ParsePattern(pattern), Segments(path)) == Some(params) ==>
              TextsCaptured(Segments(pattern), Segments(path), params)
  {
    CompiledTexts(pattern);
    MatchesIffTextsAgree(Segments(pattern), ParsePattern(pattern), Segments(path));
    CapturesTexts(Segments(pattern), ParsePattern(pattern), Segments(path));
  }

  lemma CapturesTexts(ps: seq<string>, pat: seq<PathSegment>, xs: seq<string>)
    requires Spells(ps, pat)
    ensures TextsCaptured(ps, xs, Captures(pat, xs, |pat|))
  {
    forall i | 0 <= i < |ps| && i < |xs| && Starts(ps[i], ':') && LastOfName(ps, i)
      ensures Lookup(Captures(pat, xs, |pat|), ps[i][1..]) == Some(xs[i])
    {
      forall j | i < j < |pat| && !pat[j].Literal? ensures pat[j].name != ps[i][1..] {
        assert SpellsOne(ps[j], pat[j]);
      }
      assert SpellsOne(ps[i], pat[i]);
      LastCaptureStays(pat, xs, i, |pat|);
    }
    if EndsInWildcard(ps) && |ps| <= |xs| {
      assert SpellsOne(ps[|ps| - 1], pat[|ps| - 1]);
    }
  }

  /** The compiled pattern says what the texts of its components say. */
  ghost predicate Spells(ps: seq<string>, pat: seq<PathSegment>) {
    |pat| == |ps| && forall i :: 0 <= i < |ps| ==> SpellsOne(ps[i], pat[i])
  }

  predicate SpellsOne(s: string, seg: PathSegment) {
    && s != ""
    && (seg.Wildcard? <==> Starts(s, '*')) && (seg.Param? <==> Starts(s, ':'))
    && if seg.Literal? then seg.text == s else seg.name == s[1..]
  }

  lemma LiteralsAgreeIff(ps: seq<string>, pat: seq<PathSegment>, xs: seq<string>, n: nat)
    requires Spells(ps, pat) && n <= |pat| && n <= |xs| && forall i :: 0 <= i < n ==> !pat[i].Wildcard?
    ensures LiteralsAgree(pat, xs, n) <==> TextsAgree(ps, xs, n)
  {
    forall i | 0 <= i < n ensures pat[i].Literal? && xs[i] != pat[i].text <==> !Starts(ps[i], ':') && ps[i] != xs[i] {
      assert SpellsOne(ps[i], pat[i]);
    }
  }

  lemma MatchesIffTextsAgree(ps: seq<string>, pat: seq<PathSegment>, xs: seq<string>)
    requires Spells(ps, pat) && WellFormed(pat)
    ensures Match(pat, xs).Some? <==> TextsMatch(ps, xs)
    ensures Match(pat, xs).Some? ==> Match(pat, xs).value == Captures(pat, xs, |pat|)
  {
    WellFormedFixed(pat);
    assert HasTail(pat) <==> EndsInWildcard(ps) by {
      assert ps != [] ==> SpellsOne(ps[|ps| - 1], pat[|ps| - 1]);
    }
    if LengthFits(pat, xs) {
      LiteralsAgreeIff(ps, pat, xs, FixedLength(pat));
    }
  }

  lemma CompiledTexts(pattern: string)
    ensures Spells(Segments(pattern), ParsePattern(pattern))
  {
    forall i | 0 <= i < |Segments(pattern)| ensures SpellsOne(Segments(pattern)[i], ParsePattern(pattern)[i]) {
      PatternSyntax(pattern, i);
    }
  }

  lemma {:induction false} LastCaptureStays(pat: seq<PathSegment>, segs: seq<string>, i: nat, n: nat)
    requires i < n <= |pat| && i < |segs| && pat[i].Param?
    requires forall j :: i < j < |pat| && !pat[j].Literal? ==> pat[j].name != pat[i].name
    ensures pat[i].name in Captures(pat, segs, n) && Captures(pat, segs, n)[pat[i].name] == segs[i]
  {
    if i < n - 1 {
      LastCaptureStays(pat, segs, i, n - 1);
    }
  }

  /** A wildcard in front of the end makes the matcher ignore what follows it, except in the length. */
  lemma WildcardInFront(pat: seq<PathSegment>, segs: seq<string>, k: nat)
    requires k < |pat| - 1 && pat[k].Wildcard? && forall i :: 0 <= i < k ==> !pat[i].Wildcard?
    ensures Match(pat, segs) == if LengthFits(pat, segs) then Match(pat[..k + 1], segs) else None
  {
    var front := pat[..k + 1];
    WellFormedFixed(front);
    assert FixedLength(pat) == k;
    CapturesOfFront(pat, segs, k + 1, k + 1);
  }

  lemma {:induction false} CapturesOfFront(pat: seq<PathSegment>, segs: seq<string>, k: nat, n: nat)
    requires n <= k <= |pat|
    ensures Captures(pat, segs, n) == Captures(pat[..k], segs, n)
  {
    if n > 0 {
      CapturesOfFront(pat, segs, k, n - 1);
    }
  }

  /** So a route like `/items/:id` takes `/items/42` and captures just that. */
  lemma ParameterRoute(a: string, name: string, x: string)
    requires IsComponent(a) && !Starts(a, '*') && !Starts(a, ':') && IsComponent(x) && '/' !in name
    ensures Match(ParsePattern("/" + a + "/:" + name), Segments("/" + a + "/" + x)) == Some(map[name := x])
  {
    var colon := ":" + name;
    TwoComponents(a, colon);
    TwoComponents(a, x);
    assert "/" + a + "/:" + name == "/" + (a + ['/'] + colon);
    assert "/" + a + "/" + x == "/" + (a + ['/'] + x);
    assert colon[1..] == name;
    var pat := ParsePattern("/" + a + "/:" + name);
    assert pat == [Literal(a), Param(name)];
    assert Captures(pat, [a, x], 1) == Captures(pat, [a, x], 0) == map[];
  }

  lemma TwoComponents(a: string, b: string)
    requires IsComponent(a) && IsComponent(b)
    ensures Segments("/" + (a + ['/'] + b)) == [a, b]
  {
    assert Join([a, b], '/') == a + ['/'] + b;
    RedundantSlashes(Join([a, b], '/'), "");
    SegmentsJoin([a, b]);
  }

  /** Rendering the pattern with the captures gives the path back, up to redundant slashes. */
  lemma RenderedPathIsPath(pat: seq<PathSegment>, path: string)
    requires WellFormed(pat) && DistinctNames(pat) && Match(pat, Segments(path)).Some?
    ensures Segments("/" + Join(Render(pat, Match(pat, Segments(path)).value), '/')) == Segments(path)
  {
    var params := Match(pat, Segments(path)).value;
    DistinctMatchIsSubstitution(pat, path, params);
    SegmentsAreComponents(path);
    SegmentsJoin(Segments(path));
    RedundantSlashes(Join(Segments(path), '/'), "");
  }
}
