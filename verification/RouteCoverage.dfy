/**
  The migration warning for legacy anonymous-path entries (oj/src/app.rs, serve/src/lib.rs).
  An entry with a tail star below `/a` used to mean "any depth below /a" and now means "exactly one layer". The host
  decides, over the registered routes, whether such an entry has really lost coverage.
 */
module RouteCoverage {
  import opened Wrappers
  import opened Text

  const STAR := "*"
  const GLOB := "**"

  // ----- run-time matching (serve/src/lib.rs) -----

  /** Segment matching: literal, `*` for exactly one segment, `**` for any number, by backtracking. */
  predicate SegmentsMatch(pat: seq<string>, path: seq<string>)
    decreases |pat|
  {
    if pat == [] then path == []
    else if pat[0] == GLOB then exists k :: 0 <= k <= |path| && SegmentsMatch(pat[1..], path[k..])
    else path != [] && (pat[0] == path[0] || pat[0] == STAR) && SegmentsMatch(pat[1..], path[1..])
  }

  predicate PathMatches(list: seq<string>, path: string) {
    exists i :: 0 <= i < |list| && SegmentsMatch(Segments(list[i]), Segments(path))
  }

  // ----- the decision procedure (oj/src/app.rs) -----

  /** Does the view produce a path of at least two segments? `**` can be any number of them. */
  predicate CanProduceAtLeastTwo(view: seq<string>) {
    GLOB in view || |view| >= 2
  }

  method ViewCanProduceAtLeastTwo(view: seq<string>) returns (r: bool)
    ensures r <==> CanProduceAtLeastTwo(view)
  {
    var literals := 0;
    for i := 0 to |view|
      invariant literals == i
      invariant GLOB !in view[..i]
    {
      if view[i] == GLOB {
        return true;
      }
      literals := literals + 1;
    }
    assert view[..|view|] == view;
    return literals >= 2;
  }

  /** Can the view produce a path that extends `head` by at least two segments? */
  predicate ViewReaches(view: seq<string>, head: seq<string>)
    decreases |view| + |head|
  {
    if head == [] then CanProduceAtLeastTwo(view)
    else if view == [] then false
    else if view[0] == GLOB then ViewReaches(view[1..], head) || ViewReaches(view, head[1..])
    else if view[0] == STAR then ViewReaches(view[1..], head[1..])
    else view[0] == head[0] && ViewReaches(view[1..], head[1..])
  }

  predicate IsLiteral(segs: seq<string>) {
    forall i :: 0 <= i < |segs| ==> '*' !in segs[i]
  }

  /** The legacy shape: one `*`, and that one is the whole tail. */
  predicate IsLegacyPrefixShape(entry: string) {
    match StripSuffix(entry, "/*")
    case Some(head) => IsLiteral(Segments(head))
    case None => false
  }

  predicate TailEntryLosesCoverage(entry: string, routes: seq<string>) {
    IsLegacyPrefixShape(entry) &&
    match StripSuffix(entry, "/*")
    case None => false
    case Some(head) =>
      exists i :: 0 <= i < |routes| && ViewReaches(Segments(routes[i]), Segments(head))
  }

  // ----- what the procedure decides -----

  /** A concrete path that the view matches and that goes at least two segments below `head`. */
  ghost predicate Exceeds(view: seq<string>, head: seq<string>, path: seq<string>) {
    && ProperSegments(path)
    && head <= path
    && |path| >= |head| + 2
    && SegmentsMatch(view, path)
  }

  /** The shortest way to satisfy a view, with every `**` standing for two segments. */
  ghost function Sample(view: seq<string>): (path: seq<string>)
    requires ProperSegments(view)
    ensures ProperSegments(path)
    ensures |path| >= |view|
    ensures GLOB in view ==> |path| >= 2
  {
    if view == [] then []
    else if view[0] == GLOB then ["x", "x"] + Sample(view[1..])
    else [if view[0] == STAR then "x" else view[0]] + Sample(view[1..])
  }

  lemma {:induction false} SampleMatches(view: seq<string>)
    requires ProperSegments(view)
    ensures SegmentsMatch(view, Sample(view))
  {
    if view != [] {
      SampleMatches(view[1..]);
      var path := Sample(view);
      if view[0] == GLOB {
        assert path[2..] == Sample(view[1..]);
      } else {
        assert path[1..] == Sample(view[1..]);
      }
    }
  }

  /** `**` at the front of a view can absorb one more segment. */
  lemma GlobAbsorbs(view: seq<string>, s: string, path: seq<string>)
    requires view != [] && view[0] == GLOB && SegmentsMatch(view, path)
    ensures SegmentsMatch(view, [s] + path)
  {
    var k :| 0 <= k <= |path| && SegmentsMatch(view[1..], path[k..]);
    assert ([s] + path)[k + 1..] == path[k..];
  }

  /** Soundness: a positive answer comes with a concrete path. */
  lemma {:induction false} ReachesSound(view: seq<string>, head: seq<string>) returns (path: seq<string>)
    requires ProperSegments(view) && ProperSegments(head)
    requires ViewReaches(view, head)
    ensures Exceeds(view, head, path)
    decreases |view| + |head|
  {
    if head == [] {
      path := Sample(view);
      SampleMatches(view);
    } else if view[0] == GLOB {
      if ViewReaches(view[1..], head) {
        path := ReachesSound(view[1..], head);
        assert path[0..] == path;
      } else {
        var rest := ReachesSound(view, head[1..]);
        GlobAbsorbs(view, head[0], rest);
        path := [head[0]] + rest;
      }
    } else {
      var rest := ReachesSound(view[1..], head[1..]);
      path := [head[0]] + rest;
      assert path[1..] == rest;
    }
  }

  /** A view without `**` only matches paths of its own length. */
  lemma {:induction false} FixedLength(view: seq<string>, path: seq<string>)
    requires GLOB !in view && SegmentsMatch(view, path)
    ensures |path| == |view|
  {
    if view != [] {
      FixedLength(view[1..], path[1..]);
    }
  }

  /** Completeness: no path is missed, whatever the backtracking has to try. */
  lemma {:induction false} ReachesComplete(view: seq<string>, head: seq<string>, path: seq<string>)
    requires IsLiteral(head)
    requires Exceeds(view, head, path)
    ensures ViewReaches(view, head)
    decreases |view| + |head|
  {
    if head == [] {
      if GLOB !in view {
        FixedLength(view, path);
      }
    } else if view[0] == GLOB {
      var k :| 0 <= k <= |path| && SegmentsMatch(view[1..], path[k..]);
      if k == 0 {
        assert path[0..] == path;
        ReachesComplete(view[1..], head, path);
      } else {
        assert path[1..][k - 1..] == path[k..];
        ReachesComplete(view, head[1..], path[1..]);
      }
    } else {
      ReachesComplete(view[1..], head[1..], path[1..]);
    }
  }

  /** The recursion over segments decides exactly the existence of such a path. */
  lemma ViewReachesIff(view: seq<string>, head: seq<string>)
    requires ProperSegments(view) && ProperSegments(head) && IsLiteral(head)
    ensures ViewReaches(view, head) <==> exists path :: Exceeds(view, head, path)
  {
    if ViewReaches(view, head) {
      var path := ReachesSound(view, head);
    }
    if path :| Exceeds(view, head, path) {
      ReachesComplete(view, head, path);
    }
  }

  // ----- the same on path texts, in terms of the run-time matcher -----

  /** A request path below the head that a registered route serves, that a tail `**` admits and a tail `*` does not. */
  ghost predicate LostPath(head: string, routes: seq<string>, path: string) {
    && PathMatches(routes, path)
    && PathMatches([head + "/**"], path)
    && !PathMatches([head + "/*"], path)
    && |Segments(path)| > |Segments(head)|
  }

  /** A literal head followed by `**` matches exactly the extensions of the head. */
  lemma {:induction false} LiteralThenGlob(head: seq<string>, path: seq<string>)
    requires IsLiteral(head)
    ensures SegmentsMatch(head + [GLOB], path) <==> head <= path
  {
    var pat := head + [GLOB];
    if head == [] {
      assert pat[1..] == [] && path[|path|..] == [];
    } else {
      assert pat[1..] == head[1..] + [GLOB];
      assert '*' !in head[0];
      if path != [] {
        LiteralThenGlob(head[1..], path[1..]);
      }
    }
  }

  /** A literal head followed by `*` matches exactly the one-segment extensions of the head. */
  lemma {:induction false} LiteralThenStar(head: seq<string>, path: seq<string>)
    requires IsLiteral(head)
    ensures SegmentsMatch(head + [STAR], path) <==> head <= path && |path| == |head| + 1
  {
    var pat := head + [STAR];
    if head == [] {
      assert pat[1..] == [];
    } else {
      assert pat[1..] == head[1..] + [STAR];
      assert '*' !in head[0];
      if path != [] {
        LiteralThenStar(head[1..], path[1..]);
      }
    }
  }

  lemma LostPathIff(head: string, routes: seq<string>, path: string)
    requires IsLiteral(Segments(head))
    ensures LostPath(head, routes, path) <==>
            exists i :: 0 <= i < |routes| && Exceeds(Segments(routes[i]), Segments(head), Segments(path))
  {
    var h, p := Segments(head), Segments(path);
    SegmentsAtSlash(head, GLOB);
    SegmentsAtSlash(head, STAR);
    SegmentsOfOne(GLOB);
    SegmentsOfOne(STAR);
    assert head + "/" + GLOB == head + "/**" && head + "/" + STAR == head + "/*";
    LiteralThenGlob(h, p);
    LiteralThenStar(h, p);
    assert PathMatches([head + "/**"], path) <==> SegmentsMatch(h + [GLOB], p) by {
      assert [head + "/**"][0] == head + "/**";
    }
    assert PathMatches([head + "/*"], path) <==> SegmentsMatch(h + [STAR], p) by {
      assert [head + "/*"][0] == head + "/*";
    }
  }

  /**
    Sound and complete, for every entry and every list of route views: an entry is judged to lose
    coverage exactly when it is literal segments plus one tail `*` and some request path served by some route is
    admitted by the any-depth form of the entry but no longer by the one-layer form.
   */
  lemma WarnsExactlyOnLostPaths(entry: string, routes: seq<string>)
    ensures TailEntryLosesCoverage(entry, routes) <==>
            exists head, path :: entry == head + "/*" && IsLiteral(Segments(head)) && LostPath(head, routes, path)
  {
    if TailEntryLosesCoverage(entry, routes) {
      var head := StripSuffix(entry, "/*").value;
      var i :| 0 <= i < |routes| && ViewReaches(Segments(routes[i]), Segments(head));
      var segs := ReachesSound(Segments(routes[i]), Segments(head));
      SegmentsOfJoin(segs);
      var path := Join(segs, '/');
      assert Exceeds(Segments(routes[i]), Segments(head), Segments(path));
      LostPathIff(head, routes, path);
      assert LostPath(head, routes, path);
    }
    if head, path :| entry == head + "/*" && IsLiteral(Segments(head)) && LostPath(head, routes, path) {
      LostPathIff(head, routes, path);
      var i :| 0 <= i < |routes| && Exceeds(Segments(routes[i]), Segments(head), Segments(path));
      ReachesComplete(Segments(routes[i]), Segments(head), Segments(path));
      assert StripSuffix(entry, "/*") == Some(head);
    }
  }

  // ----- route patterns as views -----

  /** `trim_matches('/')`. */
  function TrimSlashes(s: string): string
    decreases |s|
  {
    if s != "" && s[0] == '/' then TrimSlashes(s[1..]) else TrimEnd(s, '/')
  }

  /** `{param}` stands for one segment, `{*rest}` for any number; anything else is literal. */
  function ViewSegment(seg: string): (r: string)
    ensures r == "" <==> seg == ""
    ensures '/' !in seg ==> '/' !in r
  {
    if |seg| >= 2 && seg[0] == '{' && seg[|seg| - 1] == '}' then
      if |seg| >= 3 && seg[1] == '*' then GLOB else STAR
    else seg
  }

  function ViewSegments(segs: seq<string>): (r: seq<string>)
    ensures |r| == |segs|
    ensures forall i :: 0 <= i < |segs| ==> r[i] == ViewSegment(segs[i])
  {
    seq(|segs|, i requires 0 <= i < |segs| => ViewSegment(segs[i]))
  }

  function WithoutBase(pattern: string, base: string): string {
    match StripPrefix(pattern, "/" + TrimSlashes(base))
    case Some(rest) => rest
    case None => pattern
  }

  function AnonViewOfRoute(pattern: string, base: string): string {
    Join(ViewSegments(Split(WithoutBase(pattern, base), '/')), '/')
  }

  lemma ViewSegmentsCons(seg: string, rest: seq<string>)
    ensures ViewSegments([seg] + rest) == [ViewSegment(seg)] + ViewSegments(rest)
  {
  }

  lemma {:induction false} NonEmptyViewSegments(segs: seq<string>)
    ensures NonEmpty(ViewSegments(segs)) == ViewSegments(NonEmpty(segs))
  {
    hide ViewSegment;
    if segs != [] {
      NonEmptyViewSegments(segs[1..]);
      assert ViewSegments(segs)[1..] == ViewSegments(segs[1..]);
      ViewSegmentsCons(segs[0], NonEmpty(segs[1..]));
    }
  }

  /** Normalising the pattern text commutes with segmentation, so the view is the pattern segment by segment. */
  lemma AnonViewSegments(pattern: string, base: string)
    ensures Segments(AnonViewOfRoute(pattern, base)) == ViewSegments(Segments(WithoutBase(pattern, base)))
  {
    var parts := Split(WithoutBase(pattern, base), '/');
    SplitOfJoin(ViewSegments(parts), '/');
    NonEmptyViewSegments(parts);
  }

  // ----- what a pattern serves -----

  /** A segment of a route pattern: fixed, `{name}`, or `{*name}`. */
  datatype Part = Fixed(text: string) | One(name: string) | Rest(name: string)

  predicate IsPart(p: Part) {
    match p
    case Fixed(t) => !(|t| >= 2 && t[0] == '{' && t[|t| - 1] == '}')
    case One(name) => name == "" || name[0] != '*'
    case Rest(_) => true
  }

  function PartText(p: Part): string {
    match p
    case Fixed(t) => t
    case One(name) => "{" + name + "}"
    case Rest(name) => "{*" + name + "}"
  }

  predicate AreParts(ps: seq<Part>) {
    forall i :: 0 <= i < |ps| ==> IsPart(ps[i])
  }

  function PartTexts(ps: seq<Part>): (r: seq<string>)
    ensures |r| == |ps| && forall i :: 0 <= i < |ps| ==> r[i] == PartText(ps[i])
  {
    if ps == [] then [] else [PartText(ps[0])] + PartTexts(ps[1..])
  }

  /**
    The paths a pattern stands for: one segment for each `{name}`, any number for each `{*name}`. A fixed
    segment stands for itself; one that is a star itself is read as the wildcard it looks like.
   */
  predicate Fills(ps: seq<Part>, path: seq<string>)
    decreases |ps|
  {
    if ps == [] then path == []
    else if ps[0].Rest? || ps[0] == Fixed("**") then
      exists k :: 0 <= k <= |path| && Fills(ps[1..], path[k..])
    else if ps[0].One? || ps[0] == Fixed("*") then path != [] && Fills(ps[1..], path[1..])
    else path != [] && path[0] == ps[0].text && Fills(ps[1..], path[1..])
  }

  lemma PartAsView(p: Part)
    requires IsPart(p)
    ensures ViewSegment(PartText(p)) == match p case Fixed(t) => t case One(_) => "*" case Rest(_) => "**"
  {
    if p.One? && p.name != "" {
      assert PartText(p)[1] == p.name[0];
    }
  }

  lemma {:induction false} ViewFills(ps: seq<Part>, path: seq<string>)
    requires AreParts(ps)
    ensures SegmentsMatch(ViewSegments(PartTexts(ps)), path) <==> Fills(ps, path)
    decreases |ps|
  {
    hide ViewSegment, PartText, IsPart;
    if ps != [] {
      PartAsView(ps[0]);
      var view := ViewSegments(PartTexts(ps));
      assert view[1..] == ViewSegments(PartTexts(ps[1..]));
      forall k | 0 <= k <= |path|
        ensures SegmentsMatch(view[1..], path[k..]) <==> Fills(ps[1..], path[k..])
      {
        ViewFills(ps[1..], path[k..]);
      }
      if path == [] {
        assert path[0..] == [];
      }
    }
  }

  predicate AllSlashes(s: string) {
    forall i :: 0 <= i < |s| ==> s[i] == '/'
  }

  lemma {:induction false} TrimEndTrims(b: string, trail: string)
    requires AllSlashes(trail) && (b != "" ==> b[|b| - 1] != '/')
    ensures TrimEnd(b + trail, '/') == b
  {
    var s := b + trail;
    if trail == "" {
      assert s == b;
    } else {
      assert s[..|s| - 1] == b + trail[..|trail| - 1];
      TrimEndTrims(b, trail[..|trail| - 1]);
    }
  }

  lemma {:induction false} TrimSlashesTrims(lead: string, b: string, trail: string)
    requires AllSlashes(lead) && AllSlashes(trail) && (b != "" ==> b[0] != '/' && b[|b| - 1] != '/')
    ensures TrimSlashes(lead + b + trail) == b
    decreases |lead + b + trail|
  {
    var s := lead + b + trail;
    if lead != "" {
      assert s[1..] == lead[1..] + b + trail;
      TrimSlashesTrims(lead[1..], b, trail);
    } else if b == "" && trail != "" {
      assert s[1..] == "" + "" + trail[1..];
      TrimSlashesTrims("", "", trail[1..]);
    } else {
      assert s == b + trail;
      TrimEndTrims(b, trail);
    }
  }

  /**
    The view of a route admits exactly the paths that its pattern, without the base, stands for -- whatever
    slashes surround the base and repeat in the pattern.
   */
  lemma ViewAdmitsWhatThePatternServes(
    lead: string, b: string, trail: string, rest: string, ps: seq<Part>, path: seq<string>)
    requires AllSlashes(lead) && AllSlashes(trail) && (b != "" ==> b[0] != '/' && b[|b| - 1] != '/')
    requires AreParts(ps) && Segments(rest) == PartTexts(ps)
    ensures SegmentsMatch(Segments(AnonViewOfRoute("/" + b + rest, lead + b + trail)), path) <==> Fills(ps, path)
  {
    hide AnonViewOfRoute, TrimSlashes, Segments, SegmentsMatch, Fills, AreParts;
    var pattern, base := "/" + b + rest, lead + b + trail;
    TrimSlashesTrims(lead, b, trail);
    assert StripPrefix(pattern, "/" + b) == Some(rest);
    AnonViewSegments(pattern, base);
    ViewFills(ps, path);
  }
}
