/** AML path scope (openblade/api/aml_scope.py): templates compile to an anchored pattern
    that is run character by character; its meaning is segment-by-segment matching. */
module PathTemplates {
  import opened Text

  // ---- path normalization ----

  predicate AllSlashes(s: string) {
    forall k :: 0 <= k < |s| ==> s[k] == '/'
  }

  /** `s.rstrip("/")` */
  function DropTrailingSlashes(s: string): (r: string)
    ensures r <= s
    ensures r != [] ==> r[|r| - 1] != '/'
    ensures AllSlashes(s[|r|..])
    ensures r == [] <==> AllSlashes(s)
  {
    if s != [] && s[|s| - 1] == '/' then
      var r := DropTrailingSlashes(s[..|s| - 1]);
      assert s[|r|..] == s[..|s| - 1][|r|..] + ['/'];
      r
    else s
  }

  function DropLeadingSlashes(s: string): string {
    if s != [] && s[0] == '/' then DropLeadingSlashes(s[1..]) else s
  }

  function NormalizePath(path: string): string {
    if path == "" then "/"
    else if path != "/" && path[|path| - 1] == '/' then DropTrailingSlashes(path)
    else path
  }

  lemma DropTrailingSlashesAppend(s: string)
    ensures DropTrailingSlashes(s + "/") == DropTrailingSlashes(s)
  {
    assert (s + "/")[..|s|] == s;
  }

  lemma NormalizeIsDrop(path: string)
    requires !AllSlashes(path)
    ensures NormalizePath(path) == DropTrailingSlashes(path)
  {
  }

  /** Normalizing twice is normalizing once, except on two or more slashes alone: those
      become the empty path, which a second pass turns into the root. */
  lemma NormalizeIdempotentExactly(path: string)
    ensures NormalizePath(NormalizePath(path)) == NormalizePath(path) <==> !(|path| >= 2 && AllSlashes(path))
  {
    if path != "" && path != "/" && path[|path| - 1] == '/' {
      var r := DropTrailingSlashes(path);
      if |path| >= 2 && AllSlashes(path) {
        assert r == [];
      }
    } else if |path| >= 2 {
      assert path[|path| - 1] != '/';
    }
  }

  // ---- the pattern language ----

  /** The pieces a compiled template is made of: an escaped character, `[^/]+`, `/?`, `$`. */
  datatype Token = Lit(c: char) | NonSlashes | OptSlash | End

  /** Whether `p` matches from the start of `s`. `End` is Python's `$`: it holds at the end
      of the text and also just before a final newline. */
  predicate Match(p: seq<Token>, s: string)
    decreases |s|, |p|
  {
    if p == [] then true
    else match p[0]
      case Lit(c) => s != [] && s[0] == c && Match(p[1..], s[1..])
      case NonSlashes => s != [] && s[0] != '/' && (Match(p, s[1..]) || Match(p[1..], s[1..]))
      case OptSlash => (s != [] && s[0] == '/' && Match(p[1..], s[1..])) || Match(p[1..], s)
      case End => (s == "" || s == "\n") && Match(p[1..], s)
  }

  function Literal(s: string): (p: seq<Token>)
    ensures |p| == |s| && forall k :: 0 <= k < |s| ==> p[k] == Lit(s[k])
  {
    if s == [] then [] else [Lit(s[0])] + Literal(s[1..])
  }

  predicate IsPlaceholder(segment: string) {
    segment != [] && segment[0] == '{' && segment[|segment| - 1] == '}'
  }

  function NonEmptyParts(parts: seq<string>): (r: seq<string>)
    ensures forall k :: 0 <= k < |r| ==> r[k] != [] && r[k] in parts
  {
    if parts == [] then []
    else (if parts[0] == [] then [] else [parts[0]]) + NonEmptyParts(parts[1..])
  }

  /** The template's non-empty segments, found after stripping slashes at both ends. */
  function Segments(template: string): seq<string> {
    NonEmptyParts(Split(DropTrailingSlashes(DropLeadingSlashes(template)), '/'))
  }

  predicate ProperSegments(segments: seq<string>) {
    forall k :: 0 <= k < |segments| ==> segments[k] != [] && '/' !in segments[k]
  }

  lemma SegmentsProper(template: string)
    ensures ProperSegments(Segments(template))
  {
    JoinSplit(DropTrailingSlashes(DropLeadingSlashes(template)), '/');
  }

  function Encode(segment: string): seq<Token> {
    if IsPlaceholder(segment) then [NonSlashes] else Literal(segment)
  }

  function Body(segments: seq<string>): seq<Token> {
    if segments == [] then [] else [Lit('/')] + Encode(segments[0]) + Body(segments[1..])
  }

  function Compile(template: string): seq<Token> {
    var segments := Segments(template);
    if segments == [] then [Lit('/'), End] else Body(segments) + [OptSlash, End]
  }

  // ---- the intended meaning ----

  predicate SegmentMatches(segment: string, part: string) {
    if IsPlaceholder(segment) then part != [] else part == segment
  }

  /** The parts correspond one to one to the segments, up to one final empty part. */
  predicate PartsMatch(segments: seq<string>, parts: seq<string>) {
    && (|parts| == |segments| || (|parts| == |segments| + 1 && parts[|segments|] == []))
    && forall k :: 0 <= k < |segments| ==> SegmentMatches(segments[k], parts[k])
  }

  /** The path is a slash followed by parts that correspond to the segments, with one
      trailing slash allowed; without segments it is the root. */
  predicate LinesUp(segments: seq<string>, path: string) {
    if segments == [] then path == "/"
    else path != [] && path[0] == '/' && PartsMatch(segments, Split(path[1..], '/'))
  }

  predicate EndsWithNewline(path: string) {
    path != [] && path[|path| - 1] == '\n'
  }

  // ---- from `$` to whole-string matching ----

  /** Whether `p`, which holds no `$`, consumes all of `s`. */
  predicate Exact(p: seq<Token>, s: string)
    decreases |s|, |p|
  {
    if p == [] then s == []
    else match p[0]
      case Lit(c) => s != [] && s[0] == c && Exact(p[1..], s[1..])
      case NonSlashes => s != [] && s[0] != '/' && (Exact(p, s[1..]) || Exact(p[1..], s[1..]))
      case OptSlash => (s != [] && s[0] == '/' && Exact(p[1..], s[1..])) || Exact(p[1..], s)
      case End => false
  }

  predicate NoEnd(p: seq<Token>) {
    forall k :: 0 <= k < |p| ==> p[k] != End
  }

  lemma {:induction false} DollarMeaning(p: seq<Token>, s: string)
    requires NoEnd(p)
    ensures Match(p + [End], s) <==> Exact(p, s) || (EndsWithNewline(s) && Exact(p, s[..|s| - 1]))
    decreases |s|, |p|
  {
    var q := p + [End];
    if p == [] {
      assert q[1..] == [];
    } else {
      assert q[1..] == p[1..] + [End];
      if |s| > 1 {
        assert s[..|s| - 1][1..] == s[1..][..|s| - 2];
      }
      if p[0] == OptSlash {
        DollarMeaning(p[1..], s);
      }
      if s != [] {
        DollarMeaning(p[1..], s[1..]);
        if p[0] == NonSlashes {
          DollarMeaning(p, s[1..]);
        }
      }
    }
  }

  /** A pattern that can only match nothing or text that starts with a slash. */
  predicate AtBoundary(p: seq<Token>) {
    p == [OptSlash] || (p != [] && p[0] == Lit('/'))
  }

  lemma BoundaryText(p: seq<Token>, s: string)
    requires AtBoundary(p) && Exact(p, s)
    ensures s == [] || s[0] == '/'
  {
  }

  lemma {:induction false} LiteralStep(segment: string, p: seq<Token>, s: string)
    ensures Exact(Literal(segment) + p, s) <==> segment <= s && Exact(p, s[|segment|..])
  {
    var q := Literal(segment) + p;
    if segment == [] {
      assert q == p;
    } else {
      assert q[1..] == Literal(segment[1..]) + p;
      if s != [] {
        LiteralStep(segment[1..], p, s[1..]);
        assert segment <= s <==> segment[0] == s[0] && segment[1..] <= s[1..];
      }
    }
  }

  lemma {:induction false} PlaceholderStep(p: seq<Token>, s: string)
    requires AtBoundary(p)
    ensures Exact([NonSlashes] + p, s) <==> IndexOf(s, '/') > 0 && Exact(p, s[IndexOf(s, '/')..])
  {
    var q := [NonSlashes] + p;
    assert q[1..] == p;
    if s != [] && s[0] != '/' {
      PlaceholderStep(p, s[1..]);
      var f := IndexOf(s[1..], '/');
      assert s[1..][f..] == s[1 + f..];
      if Exact(p, s[1..]) {
        BoundaryText(p, s[1..]);
      }
    }
  }

  /** One segment of the pattern consumes exactly the path up to the next slash. */
  lemma SegmentStep(segment: string, p: seq<Token>, s: string)
    requires segment != [] && '/' !in segment && AtBoundary(p)
    ensures var f := IndexOf(s, '/');
      Exact(Encode(segment) + p, s) <==> SegmentMatches(segment, s[..f]) && Exact(p, s[f..])
  {
    if IsPlaceholder(segment) {
      PlaceholderStep(p, s);
    } else {
      LiteralStep(segment, p, s);
      var f := IndexOf(s, '/');
      if segment <= s && Exact(p, s[|segment|..]) {
        BoundaryText(p, s[|segment|..]);
        var tail := s[|segment|..];
        if tail == [] {
          assert s == segment;
        } else {
          assert s == segment + ['/'] + tail[1..];
          IndexOfFirst(segment, '/', tail[1..]);
        }
      }
    }
  }

  lemma PartsMatchStep(segments: seq<string>, head: string, tail: seq<string>)
    requires segments != []
    ensures PartsMatch(segments, [head] + tail) <==>
      SegmentMatches(segments[0], head) && PartsMatch(segments[1..], tail)
  {
    var parts := [head] + tail;
    if SegmentMatches(segments[0], head) && PartsMatch(segments[1..], tail) {
      forall k | 0 <= k < |segments|
        ensures SegmentMatches(segments[k], parts[k])
      {
        if k > 0 {
          assert segments[k] == segments[1..][k - 1] && parts[k] == tail[k - 1];
        }
      }
    }
    if PartsMatch(segments, parts) {
      forall k | 0 <= k < |segments[1..]|
        ensures SegmentMatches(segments[1..][k], tail[k])
      {
        assert segments[1..][k] == segments[k + 1] && tail[k] == parts[k + 1];
      }
    }
  }

  /** What may remain of a path when only `segments` are left to consume. */
  predicate Remainder(segments: seq<string>, t: string) {
    if t == [] then segments == [] else t[0] == '/' && PartsMatch(segments, Split(t[1..], '/'))
  }

  lemma RemainderStep(segments: seq<string>, s: string)
    requires segments != []
    ensures var f := IndexOf(s, '/');
      PartsMatch(segments, Split(s, '/')) <==>
        SegmentMatches(segments[0], s[..f]) && Remainder(segments[1..], s[f..])
  {
    hide Split, SegmentMatches;
    var f := IndexOf(s, '/');
    SplitStep(s, '/');
    if f == |s| {
      assert s[..f] == s;
      PartsMatchStep(segments, s, []);
      assert [s] + [] == [s];
    } else {
      PartsMatchStep(segments, s[..f], Split(s[f + 1..], '/'));
      assert s[f..][1..] == s[f + 1..];
    }
  }

  lemma SlashStep(p: seq<Token>, t: string)
    ensures Exact([Lit('/')] + p, t) <==> t != [] && t[0] == '/' && Exact(p, t[1..])
  {
    assert ([Lit('/')] + p)[1..] == p;
  }

  lemma OptSlashMeaning(t: string)
    ensures Exact([OptSlash], t) <==> Remainder([], t)
  {
    assert [OptSlash][1..] == [];
    if t != [] && t[0] == '/' {
      SplitStep(t[1..], '/');
    }
  }

  lemma BoundaryBody(segments: seq<string>)
    ensures AtBoundary(Body(segments) + [OptSlash])
  {
    hide Encode;
    assert segments == [] ==> Body(segments) + [OptSlash] == [OptSlash];
  }

  lemma BodyCons(segments: seq<string>)
    requires segments != []
    ensures Body(segments) + [OptSlash] == [Lit('/')] + (Encode(segments[0]) + (Body(segments[1..]) + [OptSlash]))
  {
    hide Encode;
  }

  /** The compiled body with its optional slash consumes exactly such a remainder. */
  lemma {:induction false} BodyMeaning(segments: seq<string>, t: string)
    requires ProperSegments(segments)
    ensures Exact(Body(segments) + [OptSlash], t) <==> Remainder(segments, t)
  {
    if segments == [] {
      assert Body(segments) + [OptSlash] == [OptSlash];
      OptSlashMeaning(t);
    } else {
      hide Exact, Body, Encode, Split, AtBoundary, PartsMatch, SegmentMatches;
      var next := Body(segments[1..]) + [OptSlash];
      BodyCons(segments);
      SlashStep(Encode(segments[0]) + next, t);
      if t != [] && t[0] == '/' {
        BoundaryBody(segments[1..]);
        SegmentStep(segments[0], next, t[1..]);
        BodyMeaning(segments[1..], t[1..][IndexOf(t[1..], '/')..]);
        RemainderStep(segments, t[1..]);
      }
    }
  }

  // ---- compilation preserves meaning ----

  /** The compiled pattern accepts a path exactly when the path lines up with the template,
      or when it is such a path followed by one newline. */
  lemma CompiledMeaning(template: string, path: string)
    ensures Match(Compile(template), path) <==>
      || LinesUp(Segments(template), path)
      || (EndsWithNewline(path) && LinesUp(Segments(template), path[..|path| - 1]))
  {
    var segments := Segments(template);
    SegmentsProper(template);
    if segments == [] {
      assert [Lit('/')] + [End] == [Lit('/'), End];
      DollarMeaning([Lit('/')], path);
      RootMeaning(path);
      if EndsWithNewline(path) {
        RootMeaning(path[..|path| - 1]);
      }
    } else {
      var p := Body(segments) + [OptSlash];
      BodyHasNoEnd(segments);
      assert Compile(template) == p + [End];
      DollarMeaning(p, path);
      BodyMeaning(segments, path);
      if EndsWithNewline(path) {
        BodyMeaning(segments, path[..|path| - 1]);
      }
    }
  }

  lemma RootMeaning(s: string)
    ensures Exact([Lit('/')], s) <==> s == "/"
  {
    assert [Lit('/')][1..] == [];
  }

  lemma {:induction false} BodyHasNoEnd(segments: seq<string>)
    ensures NoEnd(Body(segments))
  {
    if segments != [] {
      BodyHasNoEnd(segments[1..]);
    }
  }

  /** The pattern differs from its intended meaning only through Python's `$`: on a path that
      is a lined-up path plus one newline, unless the template ends in a placeholder that
      can take the newline in. */
  lemma MeaningExactlyWhen(template: string, path: string)
    ensures var segments := Segments(template);
      (Match(Compile(template), path) <==> LinesUp(segments, path)) <==>
        !(&& EndsWithNewline(path)
          && LinesUp(segments, path[..|path| - 1])
          && (segments == [] || !IsPlaceholder(segments[|segments| - 1]) || path[|path| - 2] == '/'))
  {
    hide Match, Compile, Segments, LinesUp, IsPlaceholder;
    var segments := Segments(template);
    CompiledMeaning(template, path);
    if EndsWithNewline(path) && LinesUp(segments, path[..|path| - 1]) {
      var q := path[..|path| - 1];
      LinesUpNotEmpty(segments, q);
      NewlineInLastPart(segments, q);
      assert q + "\n" == path;
    }
  }

  /** The root template's pattern accepts a slash and a newline, which is no root path. */
  lemma RootTakesNewline()
    ensures Match(Compile("/"), "/\n") && !LinesUp(Segments("/"), "/\n")
  {
    hide Match, Compile;
    assert Segments("/") == [] by { NoSegments(); }
    CompiledMeaning("/", "/\n");
    assert "/\n"[..1] == "/";
  }

  lemma NoSegments()
    ensures Segments("/") == []
  {
    assert DropTrailingSlashes(DropLeadingSlashes("/")) == "";
    assert Split("", '/') == [""];
    assert [""][1..] == [];
  }

  lemma LinesUpNotEmpty(segments: seq<string>, path: string)
    requires LinesUp(segments, path)
    ensures path != []
  {
    hide PartsMatch, Split;
  }

  lemma {:induction false} LastPart(s: string)
    ensures var parts := Split(s, '/');
      parts[|parts| - 1] == [] <==> s == [] || s[|s| - 1] == '/'
    decreases |s|
  {
    hide Split;
    var f := IndexOf(s, '/');
    SplitStep(s, '/');
    if f < |s| {
      LastPart(s[f + 1..]);
      assert s[f + 1..] != [] ==> s[f + 1..][|s| - f - 2] == s[|s| - 1];
    } else if s != [] {
      assert s[|s| - 1] in s;
    }
  }

  /** A lined-up path stays lined up under a final newline exactly when its last part is
      taken by a placeholder. */
  lemma NewlineInLastPart(segments: seq<string>, path: string)
    requires LinesUp(segments, path)
    ensures LinesUp(segments, path + "\n") <==>
      segments != [] && IsPlaceholder(segments[|segments| - 1]) && path[|path| - 1] != '/'
  {
    hide Split, PartsMatch, IsPlaceholder;
    if segments != [] {
      var s := path[1..];
      assert (path + "\n")[1..] == s + "\n";
      SplitExtend(s, '/', "\n");
      LastPart(s);
      assert path[|path| - 1] == '/' <==> s == [] || s[|s| - 1] == '/';
      PartsUnderNewline(segments, Split(s, '/'));
    }
  }

  lemma PartsUnderNewline(segments: seq<string>, parts: seq<string>)
    requires segments != [] && parts != [] && PartsMatch(segments, parts)
    ensures var n := |parts| - 1;
      PartsMatch(segments, parts[..n] + [parts[n] + "\n"]) <==>
        IsPlaceholder(segments[|segments| - 1]) && parts[n] != []
  {
    var n := |parts| - 1;
    var longer := parts[..n] + [parts[n] + "\n"];
    assert forall k :: 0 <= k < n ==> longer[k] == parts[k];
    assert SegmentMatches(segments[|segments| - 1], parts[|segments| - 1]);
  }

  // ---- matrix endpoints ----

  datatype Entry = Entry(verb: string, path: string)

  function EntriesFor(entries: seq<Entry>, verb: string): (r: seq<Entry>)
    ensures forall e :: e in r <==> e in entries && e.verb == verb
  {
    if entries == [] then []
    else
      var last := entries[|entries| - 1];
      var init := EntriesFor(entries[..|entries| - 1], verb);
      assert entries == entries[..|entries| - 1] + [last];
      if last.verb == verb then init + [last] else init
  }

  function PatternsOf(entries: seq<Entry>): (r: seq<(seq<Token>, string)>)
    ensures |r| == |entries|
    ensures forall k :: 0 <= k < |r| ==> r[k] == (Compile(entries[k].path), entries[k].path)
  {
    seq(|entries|, i requires 0 <= i < |entries| => (Compile(entries[i].path), entries[i].path))
  }

  type PatternTable = map<string, seq<(seq<Token>, string)>>

  lemma EntriesAppend(entries: seq<Entry>, e: Entry, verb: string)
    ensures EntriesFor(entries + [e], verb) == EntriesFor(entries, verb) + if e.verb == verb then [e] else []
  {
    assert (entries + [e])[..|entries|] == entries;
  }

  lemma PatternsAppend(entries: seq<Entry>, e: Entry)
    ensures PatternsOf(entries + [e]) == PatternsOf(entries) + [(Compile(e.path), e.path)]
    ensures PatternsOf([]) == []
  {
    hide Compile;
  }

  /** The table holds, for each method that occurs, its compiled entries in order. */
  ghost predicate IsTableOf(byMethod: PatternTable, entries: seq<Entry>) {
    && (forall verb :: verb in byMethod <==> EntriesFor(entries, verb) != [])
    && forall verb :: verb in byMethod ==> byMethod[verb] == PatternsOf(EntriesFor(entries, verb))
  }

  lemma TableStep(byMethod: PatternTable, entries: seq<Entry>, e: Entry)
    requires IsTableOf(byMethod, entries)
    ensures var group := if e.verb in byMethod then byMethod[e.verb] else [];
      IsTableOf(byMethod[e.verb := group + [(Compile(e.path), e.path)]], entries + [e])
  {
    hide Compile, EntriesFor, PatternsOf;
    var group := if e.verb in byMethod then byMethod[e.verb] else [];
    assert group == PatternsOf(EntriesFor(entries, e.verb)) by {
      PatternsAppend([], e);
    }
    PatternsAppend(EntriesFor(entries, e.verb), e);
    var after := byMethod[e.verb := group + [(Compile(e.path), e.path)]];
    forall verb
      ensures verb in after <==> EntriesFor(entries + [e], verb) != []
      ensures verb in after ==> after[verb] == PatternsOf(EntriesFor(entries + [e], verb))
    {
      EntriesAppend(entries, e, verb);
      if verb != e.verb {
        assert EntriesFor(entries, verb) + [] == EntriesFor(entries, verb);
      }
    }
  }

  /** Groups the compiled entries by method. */
  method MatrixEndpointPatterns(entries: seq<Entry>) returns (byMethod: PatternTable)
    ensures IsTableOf(byMethod, entries)
  {
    hide Compile, IsTableOf;
    byMethod := map[];
    TableOfNothing();
    assert entries[..0] == [];
    for i := 0 to |entries|
      invariant IsTableOf(byMethod, entries[..i])
    {
      var e := entries[i];
      var group := if e.verb in byMethod then byMethod[e.verb] else [];
      TableStep(byMethod, entries[..i], e);
      assert entries[..i + 1] == entries[..i] + [e];
      byMethod := byMethod[e.verb := group + [(Compile(e.path), e.path)]];
    }
    assert entries[..|entries|] == entries;
  }

  lemma TableOfNothing()
    ensures IsTableOf(map[], [])
  {
  }

  /** What a listed template accepts. */
  predicate Accepts(template: string, path: string) {
    || LinesUp(Segments(template), path)
    || (EndsWithNewline(path) && LinesUp(Segments(template), path[..|path| - 1]))
  }

  ghost predicate InMatrix(entries: seq<Entry>, verb: string, path: string) {
    exists e :: e in entries && e.verb == verb && Accepts(e.path, path)
  }

  method IsMatrixEndpoint(entries: seq<Entry>, verb: string, path: string) returns (found: bool)
    ensures found <==> InMatrix(entries, Upper(verb), NormalizePath(path))
  {
    var normalized := NormalizePath(path);
    var byMethod := MatrixEndpointPatterns(entries);
    ghost var group := EntriesFor(entries, Upper(verb));
    var patterns := if Upper(verb) in byMethod then byMethod[Upper(verb)] else [];
    found := AnyMatches(group, patterns, normalized);
    assert found <==> InMatrix(entries, Upper(verb), normalized);
  }

  method AnyMatches(ghost group: seq<Entry>, patterns: seq<(seq<Token>, string)>, path: string) returns (found: bool)
    requires patterns == PatternsOf(group)
    ensures found <==> exists e :: e in group && Accepts(e.path, path)
  {
    hide *;
    for i := 0 to |patterns|
      invariant forall e :: e in group[..i] ==> !Accepts(e.path, path)
    {
      var hit := PatternMatches(group[i].path, patterns[i].0, path);
      if hit {
        return true;
      }
      assert group[..i + 1] == group[..i] + [group[i]];
    }
    found := false;
  }

  method PatternMatches(ghost template: string, pattern: seq<Token>, path: string) returns (hit: bool)
    requires pattern == Compile(template)
    ensures hit <==> Accepts(template, path)
  {
    hit := Match(pattern, path);
    CompiledMeaning(template, path);
  }

  /** Trailing slashes never change the answer for a path with some other character. */
  lemma TrailingSlashesIgnored(entries: seq<Entry>, verb: string, path: string, slashes: string)
    requires !AllSlashes(path) && AllSlashes(slashes)
    ensures InMatrix(entries, verb, NormalizePath(path + slashes)) <==> InMatrix(entries, verb, NormalizePath(path))
  {
    NormalizeIgnoresSlashes(path, slashes);
  }

  lemma {:induction false} NormalizeIgnoresSlashes(path: string, slashes: string)
    requires !AllSlashes(path) && AllSlashes(slashes)
    ensures NormalizePath(path + slashes) == NormalizePath(path)
  {
    if slashes == [] {
      assert path + slashes == path;
    } else {
      var shorter := path + slashes[..|slashes| - 1];
      NormalizeIgnoresSlashes(path, slashes[..|slashes| - 1]);
      assert path + slashes == shorter + "/";
      var k :| 0 <= k < |path| && path[k] != '/';
      assert shorter[k] != '/' && (shorter + "/")[k] != '/';
      NormalizeIsDrop(shorter);
      NormalizeIsDrop(shorter + "/");
      DropTrailingSlashesAppend(shorter);
    }
  }

  /** A path of two or more slashes alone is never an endpoint, whatever is listed for `/`. */
  lemma SlashRunNeverMatches(entries: seq<Entry>, verb: string, path: string)
    requires |path| >= 2 && AllSlashes(path)
    ensures !InMatrix(entries, verb, NormalizePath(path))
  {
    assert NormalizePath(path) == "";
  }

  /** Stripping the template first does not matter: its segments are the non-empty parts
      between its slashes. */
  lemma SegmentsAreNonEmptyParts(template: string)
    ensures Segments(template) == NonEmptyParts(Split(template, '/'))
  {
    LeadingSlashesEmpty(template);
    TrailingSlashesEmpty(DropLeadingSlashes(template));
  }

  lemma {:induction false} LeadingSlashesEmpty(s: string)
    ensures NonEmptyParts(Split(DropLeadingSlashes(s), '/')) == NonEmptyParts(Split(s, '/'))
  {
    if s != [] && s[0] == '/' {
      LeadingSlashesEmpty(s[1..]);
      assert s == [] + ['/'] + s[1..];
      SplitPrefix([], '/', s[1..]);
      assert Split(s, '/')[1..] == Split(s[1..], '/');
    }
  }

  lemma {:induction false} TrailingSlashesEmpty(s: string)
    ensures NonEmptyParts(Split(DropTrailingSlashes(s), '/')) == NonEmptyParts(Split(s, '/'))
  {
    hide NonEmptyParts, Split;
    if s != [] && s[|s| - 1] == '/' {
      TrailingSlashesEmpty(s[..|s| - 1]);
      assert s == s[..|s| - 1] + ['/'] + [];
      SplitConcat(s[..|s| - 1], '/', []);
      SplitPrefix([], '/', []);
      NonEmptyPartsAppend(Split(s[..|s| - 1], '/'));
    }
  }

  lemma {:induction false} NonEmptyPartsAppend(parts: seq<string>)
    ensures NonEmptyParts(parts + [[]]) == NonEmptyParts(parts)
  {
    if parts == [] {
      assert parts + [[]] == [[]];
    } else {
      NonEmptyPartsAppend(parts[1..]);
      assert (parts + [[]])[1..] == parts[1..] + [[]];
    }
  }

  // ---- which paths are the same after normalization ----

  /** The two paths differ in nothing but slashes at the end. */
  ghost predicate SameButSlashes(a: string, b: string) {
    exists core, x, y :: AllSlashes(x) && AllSlashes(y) && a == core + x && b == core + y
  }

  /** Among paths of slashes alone, those of two or more are told from the rest. */
  ghost predicate SamePath(a: string, b: string) {
    if AllSlashes(a) then AllSlashes(b) && (|a| <= 1 <==> |b| <= 1)
    else !AllSlashes(b) && SameButSlashes(a, b)
  }

  /** Two paths have one normal form exactly when they differ in nothing but trailing slashes. */
  lemma NormalizeEqualExactly(a: string, b: string)
    ensures NormalizePath(a) == NormalizePath(b) <==> SamePath(a, b)
  {
    if !AllSlashes(a) && !AllSlashes(b) {
      NormalizeIsDrop(a);
      NormalizeIsDrop(b);
      if SameButSlashes(a, b) {
        var core, x, y :| AllSlashes(x) && AllSlashes(y) && a == core + x && b == core + y;
        assert !AllSlashes(core) by {
          var k :| 0 <= k < |a| && a[k] != '/';
          assert k < |core| ==> core[k] != '/';
        }
        NormalizeIgnoresSlashes(core, x);
        NormalizeIgnoresSlashes(core, y);
      }
      var core := DropTrailingSlashes(a);
      if core == DropTrailingSlashes(b) {
        assert a == core + a[|core|..] && b == core + b[|core|..];
      }
    } else {
      NormalizeRuns(a);
      NormalizeRuns(b);
    }
  }

  lemma NormalizeRuns(path: string)
    ensures AllSlashes(path) ==> NormalizePath(path) == if |path| <= 1 then "/" else ""
    ensures !AllSlashes(path) ==> NormalizePath(path) != "" && NormalizePath(path) != "/"
  {
    if !AllSlashes(path) {
      NormalizeIsDrop(path);
    } else if |path| >= 1 {
      assert path[|path| - 1] == '/';
      assert |path| == 1 ==> path == "/";
      assert |path| >= 2 ==> path != "/";
    }
  }

  // ---- what a listed template accepts, by its segments ----

  /** A segment in braces takes any part that is not empty. */
  lemma BraceSegment(name: string, part: string)
    ensures SegmentMatches("{" + name + "}", part) <==> part != ""
  {
    var segment := "{" + name + "}";
    assert segment[0] == '{' && segment[|segment| - 1] == '}';
  }

  ghost predicate Braced(segment: string) {
    exists name :: segment == "{" + name + "}"
  }

  /** Any other segment takes its own text alone. */
  lemma LiteralSegment(segment: string, part: string)
    requires !Braced(segment)
    ensures SegmentMatches(segment, part) <==> part == segment
  {
    BracedExactly(segment);
  }

  lemma BracedExactly(segment: string)
    ensures Braced(segment) <==> IsPlaceholder(segment)
  {
    if IsPlaceholder(segment) {
      assert |segment| >= 2;
      assert segment == "{" + segment[1..|segment| - 1] + "}";
    }
  }

  /** `parts` fill `segments`: literal ones as they are, those in braces with anything. */
  ghost predicate Fills(segments: seq<string>, parts: seq<string>) {
    && |parts| == |segments|
    && forall k :: 0 <= k < |segments| ==> Braced(segments[k]) || parts[k] == segments[k]
  }

  function PathOf(parts: seq<string>): string
    requires parts != []
  {
    "/" + Join(parts, '/')
  }

  lemma {:induction false} JoinEnds(parts: seq<string>)
    requires parts != [] && ProperSegments(parts)
    ensures var s, last := Join(parts, '/'), parts[|parts| - 1];
      s != [] && s[|s| - 1] == last[|last| - 1] && s[0] == parts[0][0]
  {
    if |parts| > 1 {
      assert parts == [parts[0]] + parts[1..];
      JoinEnds(parts[1..]);
      JoinCons(parts[0], parts[1..], '/');
    }
  }

  lemma PathOfFacts(parts: seq<string>)
    requires parts != [] && ProperSegments(parts)
    ensures NormalizePath(PathOf(parts)) == PathOf(parts)
    ensures Split(PathOf(parts)[1..], '/') == parts
    ensures var last := parts[|parts| - 1]; EndsWithNewline(PathOf(parts)) <==> last[|last| - 1] == '\n'
  {
    hide Split, Join, NormalizePath;
    JoinEnds(parts);
    SplitJoin(parts, '/');
    var path, joined := PathOf(parts), Join(parts, '/');
    assert path[1..] == joined;
    assert path[|path| - 1] == joined[|joined| - 1] != '/';
    NormalizeUnslashed(path);
  }

  lemma NormalizeUnslashed(path: string)
    requires path != [] && path[|path| - 1] != '/'
    ensures NormalizePath(path) == path
  {
  }

  /** A template written from its segments has those segments. */
  lemma SegmentsOfPath(segments: seq<string>)
    requires segments != [] && ProperSegments(segments)
    ensures Segments(PathOf(segments)) == segments
  {
    hide Split, Join, DropTrailingSlashes, DropLeadingSlashes, Segments;
    var joined := Join(segments, '/');
    SegmentsAreNonEmptyParts(PathOf(segments));
    SplitJoin(segments, '/');
    assert PathOf(segments) == [] + ['/'] + joined;
    SplitPrefix([], '/', joined);
    NonEmptyPartsFixed(segments);
    assert ([[]] + segments)[1..] == segments;
  }

  lemma {:induction false} NonEmptyPartsFixed(parts: seq<string>)
    requires ProperSegments(parts)
    ensures NonEmptyParts(parts) == parts
  {
    if parts != [] {
      NonEmptyPartsFixed(parts[1..]);
    }
  }

  /** A template accepts a path exactly when the path's parts fill its segments, as long as the
      path does not end in a newline. */
  lemma AcceptsExactly(segments: seq<string>, parts: seq<string>)
    requires segments != [] && ProperSegments(segments) && parts != [] && ProperSegments(parts)
    requires var last := parts[|parts| - 1]; last[|last| - 1] != '\n'
    ensures Accepts(PathOf(segments), PathOf(parts)) <==> Fills(segments, parts)
  {
    hide Split, Join, Segments, NormalizePath, PathOf, Braced;
    SegmentsOfPath(segments);
    PathOfFacts(parts);
    assert PathOf(parts) != [] && PathOf(parts)[0] == '/' by { PathOfStarts(parts); }
    forall k | 0 <= k < |segments| && k < |parts|
      ensures SegmentMatches(segments[k], parts[k]) <==> Braced(segments[k]) || parts[k] == segments[k]
    {
      SegmentFilled(segments[k], parts[k]);
    }
  }

  lemma PathOfStarts(parts: seq<string>)
    requires parts != []
    ensures PathOf(parts) != [] && PathOf(parts)[0] == '/'
  {
  }

  lemma SegmentFilled(segment: string, part: string)
    requires part != ""
    ensures SegmentMatches(segment, part) <==> Braced(segment) || part == segment
  {
    if Braced(segment) {
      var name :| segment == "{" + name + "}";
      BraceSegment(name, part);
    } else {
      LiteralSegment(segment, part);
    }
  }

  /** The search finds a path exactly when it fills a listed template of that method, whatever
      slashes follow it. */
  lemma ListedExactly(
      entries: seq<Entry>, templates: seq<seq<string>>, verb: string, parts: seq<string>, slashes: string)
    requires |templates| == |entries|
    requires forall i :: 0 <= i < |entries| ==>
      templates[i] != [] && ProperSegments(templates[i]) && entries[i].path == PathOf(templates[i])
    requires parts != [] && ProperSegments(parts) && AllSlashes(slashes)
    requires var last := parts[|parts| - 1]; last[|last| - 1] != '\n'
    ensures InMatrix(entries, verb, NormalizePath(PathOf(parts) + slashes)) <==>
      exists i :: 0 <= i < |entries| && entries[i].verb == verb && Fills(templates[i], parts)
  {
    hide Accepts, Fills, NormalizePath, PathOf;
    var path := PathOf(parts);
    assert !AllSlashes(path) by { PathOfProper(parts); }
    TrailingSlashesIgnored(entries, verb, path, slashes);
    PathOfFacts(parts);
    forall i | 0 <= i < |entries|
      ensures Accepts(entries[i].path, path) <==> Fills(templates[i], parts)
    {
      AcceptsExactly(templates[i], parts);
    }
    if exists i :: 0 <= i < |entries| && entries[i].verb == verb && Fills(templates[i], parts) {
      var i :| 0 <= i < |entries| && entries[i].verb == verb && Fills(templates[i], parts);
      assert entries[i] in entries;
    }
  }

  lemma PathOfProper(parts: seq<string>)
    requires parts != [] && ProperSegments(parts)
    ensures !AllSlashes(PathOf(parts))
  {
    JoinEnds(parts);
    assert PathOf(parts)[1] == Join(parts, '/')[0];
  }
}
