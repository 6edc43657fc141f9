/** Pruning of an OpenAPI schema's components (openblade/api/main.py): a worklist follows
    `$ref` strings from `paths`, and only components it reaches survive. */
module OpenApiPruning {
  import opened JsonTree
  import PathTemplates
  import opened Text
  import opened Wrappers

  datatype Ref = Ref(kind: string, name: string)

  const REF_PREFIX := "#/components/"
  const SECURITY_SCHEMES := "securitySchemes"

  // ---- references in a document ----

  /** The component a `$ref` string points at; trailing path parts are ignored. */
  function RefTarget(raw: string): Option<Ref> {
    if !StartsWith(raw, REF_PREFIX) then None
    else
      var parts := Split(raw, '/');
      if |parts| >= 4 then Some(Ref(parts[2], parts[3])) else None
  }

  /** A reference written for a component is read back as that component. */
  lemma RefTargetOf(r: Ref)
    requires '/' !in r.kind && '/' !in r.name
    ensures RefTarget(REF_PREFIX + r.kind + "/" + r.name) == Some(r)
  {
    var raw := REF_PREFIX + r.kind + "/" + r.name;
    assert raw == "#" + ['/'] + ("components" + ['/'] + (r.kind + ['/'] + r.name)) by {
      assert REF_PREFIX == "#" + ['/'] + ("components" + ['/']);
    }
    assert REF_PREFIX <= raw;
    assert Split(raw, '/') == ["#", "components", r.kind, r.name] by {
      SplitFour("#", "components", r.kind, r.name);
    }
  }

  /** Only such texts are references, and what follows the name does not matter. */
  lemma RefTargetExactly(raw: string, r: Ref)
    ensures RefTarget(raw) == Some(r) <==>
      && '/' !in r.kind && '/' !in r.name
      && (raw == "#/components/" + r.kind + "/" + r.name
          || exists rest :: raw == "#/components/" + r.kind + "/" + r.name + "/" + rest)
  {
    hide Split;
    var short := "#/components/" + r.kind + "/" + r.name;
    if '/' !in r.kind && '/' !in r.name {
      RefTargetOf(r);
      forall rest | raw == short + "/" + rest
        ensures RefTarget(raw) == Some(r)
      {
        RefTargetLonger(r, rest);
      }
    }
    if RefTarget(raw) == Some(r) {
      RefTargetBack(raw);
    }
  }

  lemma RefTargetLonger(r: Ref, rest: string)
    requires '/' !in r.kind && '/' !in r.name
    ensures RefTarget("#/components/" + r.kind + "/" + r.name + "/" + rest) == Some(r)
  {
    hide Split;
    var short := "#/components/" + r.kind + "/" + r.name;
    assert short == "#" + ['/'] + ("components" + ['/'] + (r.kind + ['/'] + r.name)) by {
      assert "#/components/" == "#" + ['/'] + ("components" + ['/']);
    }
    SplitFour("#", "components", r.kind, r.name);
    SplitConcat(short, '/', rest);
    assert short + ['/'] + rest == short + "/" + rest;
    assert REF_PREFIX <= short + "/" + rest;
  }

  lemma RefTargetBack(raw: string)
    requires RefTarget(raw).Some?
    ensures var r := RefTarget(raw).value; var short := "#/components/" + r.kind + "/" + r.name;
      && '/' !in r.kind && '/' !in r.name
      && (raw == short || exists rest :: raw == short + "/" + rest)
  {
    hide Split, Join;
    var tail, parts := raw[|REF_PREFIX|..], Split(raw, '/');
    assert raw == "#" + ['/'] + ("components" + ['/'] + tail) by {
      assert REF_PREFIX == "#" + ['/'] + ("components" + ['/']);
    }
    SplitPrefix("components", '/', tail);
    SplitPrefix("#", '/', "components" + ['/'] + tail);
    var rest := Split(tail, '/');
    assert parts == ["#"] + (["components"] + rest);
    JoinSplit(tail, '/');
    JoinFrom(rest);
    if |rest| == 2 {
      assert raw == "#/components/" + rest[0] + "/" + rest[1];
    } else {
      assert raw == "#/components/" + rest[0] + "/" + rest[1] + "/" + Join(rest[2..], '/');
    }
  }

  lemma JoinFrom(parts: seq<string>)
    requires |parts| >= 2
    ensures Join(parts, '/') == parts[0] + "/" +
      if |parts| == 2 then parts[1] else parts[1] + "/" + Join(parts[2..], '/')
  {
    assert parts == [parts[0]] + parts[1..];
    assert parts[1..] == [parts[1]] + parts[2..];
  }

  lemma SplitFour(a: string, b: string, c: string, d: string)
    requires '/' !in a && '/' !in b && '/' !in c && '/' !in d
    ensures Split(a + ['/'] + (b + ['/'] + (c + ['/'] + d)), '/') == [a, b, c, d]
  {
    hide *;
    SplitPrefix(d, '/', []);
    SplitPrefix(c, '/', d);
    SplitPrefix(b, '/', c + ['/'] + d);
    SplitPrefix(a, '/', b + ['/'] + (c + ['/'] + d));
  }

  function OwnRef(payload: Json): Option<Ref> {
    if payload.Obj? && "$ref" in payload.fields && payload.fields["$ref"].Str?
    then RefTarget(payload.fields["$ref"].text)
    else None
  }

  /** Some object at any depth of `payload` carries a `$ref` to `r`. */
  ghost predicate Mentions(payload: Json, r: Ref) {
    || OwnRef(payload) == Some(r)
    || (payload.Arr? && exists i :: 0 <= i < |payload.items| && Mentions(payload.items[i], r))
    || (payload.Obj? && exists key :: key in payload.fields && Mentions(payload.fields[key], r))
  }

  /** One of the values of an object, among those under `keys`, mentions `r`. */
  ghost predicate MentionsUnder(fields: map<string, Json>, keys: set<string>, r: Ref) {
    exists key :: key in keys && key in fields && Mentions(fields[key], r)
  }

  /** One of the first `n` items mentions `r`. */
  ghost predicate MentionsBefore(items: seq<Json>, n: nat, r: Ref) {
    exists i :: 0 <= i < n && i < |items| && Mentions(items[i], r)
  }

  lemma MentionsUnderStep(fields: map<string, Json>, keys: set<string>, key: string, r: Ref)
    requires key in fields
    ensures MentionsUnder(fields, keys + {key}, r) <==> MentionsUnder(fields, keys, r) || Mentions(fields[key], r)
  {
  }

  lemma MentionsBeforeStep(items: seq<Json>, n: nat, r: Ref)
    requires n < |items|
    ensures MentionsBefore(items, n + 1, r) <==> MentionsBefore(items, n, r) || Mentions(items[n], r)
  {
  }

  lemma MentionsCases(payload: Json, r: Ref)
    ensures payload.Obj? ==>
      (Mentions(payload, r) <==> OwnRef(payload) == Some(r) || MentionsUnder(payload.fields, payload.fields.Keys, r))
    ensures payload.Arr? ==> (Mentions(payload, r) <==> MentionsBefore(payload.items, |payload.items|, r))
    ensures !payload.Obj? && !payload.Arr? ==> !Mentions(payload, r)
  {
  }

  method CollectComponentRefs(payload: Json) returns (refs: set<Ref>)
    ensures forall r :: r in refs <==> Mentions(payload, r)
    decreases payload, 1
  {
    refs := {};
    if payload.Obj? {
      var raw := OwnRef(payload);
      var below := CollectFieldRefs(payload);
      refs := if raw.Some? then {raw.value} + below else below;
    } else if payload.Arr? {
      refs := CollectItemRefs(payload);
    }
    forall r
      ensures r in refs <==> Mentions(payload, r)
    {
      MentionsCases(payload, r);
    }
  }

  method CollectFieldRefs(payload: Json) returns (refs: set<Ref>)
    requires payload.Obj?
    ensures forall r :: r in refs <==> MentionsUnder(payload.fields, payload.fields.Keys, r)
    decreases payload, 0
  {
    refs := {};
    var fields := payload.fields;
    var pending := fields.Keys;
    while pending != {}
      invariant pending <= fields.Keys
      invariant forall r :: r in refs <==> MentionsUnder(fields, fields.Keys - pending, r)
    {
      var key :| key in pending;
      var below := CollectComponentRefs(fields[key]);
      assert fields.Keys - (pending - {key}) == (fields.Keys - pending) + {key};
      forall r
        ensures r in refs + below <==> MentionsUnder(fields, (fields.Keys - pending) + {key}, r)
      {
        MentionsUnderStep(fields, fields.Keys - pending, key, r);
      }
      refs := refs + below;
      pending := pending - {key};
    }
    assert fields.Keys - pending == fields.Keys;
  }

  method CollectItemRefs(payload: Json) returns (refs: set<Ref>)
    requires payload.Arr?
    ensures forall r :: r in refs <==> MentionsBefore(payload.items, |payload.items|, r)
    decreases payload, 0
  {
    refs := {};
    var items := payload.items;
    for i := 0 to |items|
      invariant forall r :: r in refs <==> MentionsBefore(items, i, r)
    {
      var below := CollectComponentRefs(items[i]);
      forall r
        ensures r in refs + below <==> MentionsBefore(items, i + 1, r)
      {
        MentionsBeforeStep(items, i, r);
      }
      refs := refs + below;
    }
  }

  // ---- reachability ----

  /** The component `r` exists and has a payload other than null. */
  predicate Resolves(components: map<string, Json>, r: Ref) {
    && r.kind in components
    && components[r.kind].Obj?
    && r.name in components[r.kind].fields
    && components[r.kind].fields[r.name] != Null
  }

  function Payload(components: map<string, Json>, r: Ref): Json
    requires Resolves(components, r)
  {
    components[r.kind].fields[r.name]
  }

  /** A chain of `$ref`s: `paths` mentions the first component, and each component
      mentions the next. */
  ghost predicate Chain(paths: Json, components: map<string, Json>, chain: seq<Ref>) {
    && chain != []
    && Mentions(paths, chain[0])
    && (forall i :: 0 <= i < |chain| ==> Resolves(components, chain[i]))
    && (forall i :: 0 < i < |chain| ==> Mentions(Payload(components, chain[i - 1]), chain[i]))
  }

  ghost predicate Reachable(paths: Json, components: map<string, Json>, r: Ref) {
    exists chain :: Chain(paths, components, chain) && chain[|chain| - 1] == r
  }

  /** `seen` holds everything that `paths` or a member of `seen` refers to and that resolves. */
  ghost predicate Closed(paths: Json, components: map<string, Json>, seen: set<Ref>) {
    && (forall r :: Mentions(paths, r) && Resolves(components, r) ==> r in seen)
    && (forall s, r :: s in seen && Resolves(components, s) && Mentions(Payload(components, s), r) ==>
          Resolves(components, r) ==> r in seen)
  }

  lemma {:induction false} ChainStaysInClosed(
      paths: Json, components: map<string, Json>, seen: set<Ref>, chain: seq<Ref>)
    requires Closed(paths, components, seen) && Chain(paths, components, chain)
    ensures chain[|chain| - 1] in seen
  {
    if |chain| > 1 {
      var init := chain[..|chain| - 1];
      ChainStaysInClosed(paths, components, seen, init);
      assert Mentions(Payload(components, chain[|chain| - 2]), chain[|chain| - 1]);
      assert chain[|chain| - 2] == init[|init| - 1];
    }
  }

  /** The reachable components are the least closed set. */
  lemma ReachableIsLeastClosed(paths: Json, components: map<string, Json>, seen: set<Ref>, r: Ref)
    requires Closed(paths, components, seen) && Reachable(paths, components, r)
    ensures r in seen
  {
    var chain :| Chain(paths, components, chain) && chain[|chain| - 1] == r;
    ChainStaysInClosed(paths, components, seen, chain);
  }

  lemma ReachableFromPaths(paths: Json, components: map<string, Json>, r: Ref)
    requires Mentions(paths, r) && Resolves(components, r)
    ensures Reachable(paths, components, r)
  {
    assert Chain(paths, components, [r]);
  }

  lemma ReachableStep(paths: Json, components: map<string, Json>, s: Ref, r: Ref)
    requires Reachable(paths, components, s) && Resolves(components, s)
    requires Mentions(Payload(components, s), r) && Resolves(components, r)
    ensures Reachable(paths, components, r)
  {
    hide Mentions;
    var chain :| Chain(paths, components, chain) && chain[|chain| - 1] == s;
    var longer := chain + [r];
    assert forall i :: 0 <= i < |chain| ==> longer[i] == chain[i];
    assert Chain(paths, components, longer) && longer[|longer| - 1] == r;
  }

  // ---- what pruning leaves ----

  ghost predicate Survives(paths: Json, components: map<string, Json>, r: Ref) {
    r.kind == SECURITY_SCHEMES || Reachable(paths, components, r)
  }

  /** The surviving components: a kind stays when it is `securitySchemes` or has a
      reachable member, and keeps exactly its surviving members. */
  ghost function PrunedComponents(paths: Json, components: map<string, Json>): map<string, Json> {
    map kind |
      && kind in components
      && components[kind].Obj?
      && (kind == SECURITY_SCHEMES
          || exists name :: name in components[kind].fields && Reachable(paths, components, Ref(kind, name)))
      :: Obj(map name |
          name in components[kind].fields && Survives(paths, components, Ref(kind, name))
          :: components[kind].fields[name])
  }

  function PathsOf(schema: map<string, Json>): Json {
    if "paths" in schema then schema["paths"] else Obj(map[])
  }

  function ComponentsOf(schema: map<string, Json>): map<string, Json> {
    if "components" in schema && schema["components"].Obj? then schema["components"].fields else map[]
  }

  ghost function Pruned(schema: map<string, Json>): map<string, Json> {
    if "components" in schema && schema["components"].Obj?
    then schema["components" := Obj(PrunedComponents(PathsOf(schema), schema["components"].fields))]
    else schema
  }

  method ListOf(refs: set<Ref>) returns (list: seq<Ref>)
    ensures forall r :: r in list <==> r in refs
  {
    list := [];
    var pending := refs;
    while pending != {}
      invariant pending <= refs
      invariant forall r :: r in list <==> r in refs - pending
    {
      var r :| r in pending;
      list := list + [r];
      pending := pending - {r};
    }
  }

  ghost function AllRefs(components: map<string, Json>): set<Ref> {
    set kind, name | kind in components && components[kind].Obj? && name in components[kind].fields
      :: Ref(kind, name)
  }

  /** The worklist: pops a reference, skips it when seen or unresolved, and otherwise marks
      it and queues what its payload mentions. Every turn either marks a new component or
      shortens the queue. */
  method CollectReachable(paths: Json, components: map<string, Json>) returns (seen: set<Ref>)
    ensures forall r :: r in seen <==> Reachable(paths, components, r)
  {
    hide Mentions, Reachable;
    var start := CollectComponentRefs(paths);
    var queue := ListOf(start);
    seen := {};
    forall r | r in queue && Resolves(components, r)
      ensures Reachable(paths, components, r)
    {
      ReachableFromPaths(paths, components, r);
    }
    while queue != []
      invariant forall r :: r in seen ==> Resolves(components, r) && Reachable(paths, components, r)
      invariant forall r :: r in queue && Resolves(components, r) ==> Reachable(paths, components, r)
      invariant forall r :: Mentions(paths, r) && Resolves(components, r) ==> r in seen || r in queue
      invariant forall s, r :: s in seen && Mentions(Payload(components, s), r) ==>
                                 Resolves(components, r) ==> r in seen || r in queue
      decreases AllRefs(components) - seen, |queue|
    {
      var key := queue[|queue| - 1];
      var rest := queue[..|queue| - 1];
      assert forall r :: r in queue <==> r in rest || r == key;
      queue := rest;
      if key in seen || !Resolves(components, key) {
        continue;
      }
      ghost var before := seen;
      assert key in AllRefs(components) - before;
      seen := seen + {key};
      var more := CollectComponentRefs(Payload(components, key));
      var extra := ListOf(more);
      forall r | r in extra && Resolves(components, r)
        ensures Reachable(paths, components, r)
      {
        ReachableStep(paths, components, key, r);
      }
      queue := queue + extra;
    }
    assert Closed(paths, components, seen);
    forall r | Reachable(paths, components, r)
      ensures r in seen
    {
      ReachableIsLeastClosed(paths, components, seen, r);
    }
  }

  // ---- laws of pruning ----

  /** Pruning removes nothing else and adds nothing: afterwards a component resolves exactly
      when it resolved before and survives, and then its payload is unchanged. */
  lemma ResolvesAfterPruning(schema: map<string, Json>, r: Ref)
    ensures var before, after := ComponentsOf(schema), ComponentsOf(Pruned(schema));
      && (Resolves(after, r) <==> Resolves(before, r) && Survives(PathsOf(schema), before, r))
      && (Resolves(after, r) ==> Payload(after, r) == Payload(before, r))
    ensures PathsOf(Pruned(schema)) == PathsOf(schema)
  {
    var paths, before := PathsOf(schema), ComponentsOf(schema);
    if "components" in schema && schema["components"].Obj? {
      assert ComponentsOf(Pruned(schema)) == PrunedComponents(paths, before);
    } else if Survives(paths, before, r) {
      assert !Resolves(before, r);
    }
  }

  /** No reference that a reader of the pruned schema can follow from `paths` is broken. */
  lemma NoFollowedReferenceBreaks(schema: map<string, Json>, source: Json, r: Ref)
    requires
      || source == PathsOf(schema)
      || exists s :: Reachable(PathsOf(schema), ComponentsOf(schema), s) && Resolves(ComponentsOf(schema), s)
                     && source == Payload(ComponentsOf(schema), s)
    requires Mentions(source, r) && Resolves(ComponentsOf(schema), r)
    ensures Resolves(ComponentsOf(Pruned(schema)), r)
    ensures Payload(ComponentsOf(Pruned(schema)), r) == Payload(ComponentsOf(schema), r)
  {
    var paths, before := PathsOf(schema), ComponentsOf(schema);
    if source == paths {
      ReachableFromPaths(paths, before, r);
    } else {
      var s :| Reachable(paths, before, s) && Resolves(before, s) && source == Payload(before, s);
      ReachableStep(paths, before, s, r);
    }
    ResolvesAfterPruning(schema, r);
  }

  /** A security scheme is kept without being followed, so a reference out of it can break:
      here the only path-less component it points at is dropped. */
  lemma SchemeReferenceCanBreak(schema: map<string, Json>, scheme: Ref, link: Json, r: Ref)
    requires link == Obj(map["$ref" := Str(REF_PREFIX + r.kind + "/" + r.name)])
    requires scheme.kind == SECURITY_SCHEMES != r.kind && '/' !in r.kind && '/' !in r.name
    requires schema == map["components" := Obj(map[
      scheme.kind := Obj(map[scheme.name := link]), r.kind := Obj(map[r.name := Bool(true)])])]
    ensures Resolves(ComponentsOf(schema), scheme) && Mentions(Payload(ComponentsOf(schema), scheme), r)
    ensures Resolves(ComponentsOf(schema), r)
    ensures Resolves(ComponentsOf(Pruned(schema)), scheme) && !Resolves(ComponentsOf(Pruned(schema)), r)
  {
    RefTargetOf(r);
    MentionsCases(link, r);
    assert PathsOf(schema) == Obj(map[]);
    forall q
      ensures !Mentions(PathsOf(schema), q)
    {
      MentionsCases(PathsOf(schema), q);
    }
    assert !Reachable(PathsOf(schema), ComponentsOf(schema), r);
    ResolvesAfterPruning(schema, r);
    ResolvesAfterPruning(schema, scheme);
  }

  lemma ReachableAfterPruning(schema: map<string, Json>, r: Ref)
    ensures Reachable(PathsOf(schema), ComponentsOf(Pruned(schema)), r)
      <==> Reachable(PathsOf(schema), ComponentsOf(schema), r)
  {
    hide Mentions, Pruned;
    var paths, before, after := PathsOf(schema), ComponentsOf(schema), ComponentsOf(Pruned(schema));
    if Reachable(paths, before, r) {
      var chain :| Chain(paths, before, chain) && chain[|chain| - 1] == r;
      forall i | 0 <= i < |chain|
        ensures Resolves(after, chain[i]) && Payload(after, chain[i]) == Payload(before, chain[i])
      {
        ChainPrefixReachable(paths, before, chain, i);
        ResolvesAfterPruning(schema, chain[i]);
      }
      assert Chain(paths, after, chain);
    }
    if Reachable(paths, after, r) {
      var chain :| Chain(paths, after, chain) && chain[|chain| - 1] == r;
      forall i | 0 <= i < |chain|
        ensures Resolves(before, chain[i]) && Payload(after, chain[i]) == Payload(before, chain[i])
      {
        ResolvesAfterPruning(schema, chain[i]);
      }
      assert Chain(paths, before, chain);
    }
  }

  lemma ChainPrefixReachable(paths: Json, components: map<string, Json>, chain: seq<Ref>, i: nat)
    requires Chain(paths, components, chain) && i < |chain|
    ensures Reachable(paths, components, chain[i])
  {
    var prefix := chain[..i + 1];
    assert Chain(paths, components, prefix) && prefix[|prefix| - 1] == chain[i];
  }

  /** Pruning a pruned schema changes nothing. */
  lemma PruneIdempotent(schema: map<string, Json>)
    ensures Pruned(Pruned(schema)) == Pruned(schema)
  {
    hide Reachable;
    if "components" in schema && schema["components"].Obj? {
      var paths, before, once := PathsOf(schema), ComponentsOf(schema), ComponentsOf(Pruned(schema));
      var twice := PrunedComponents(paths, once);
      assert once == PrunedComponents(paths, before);
      assert Pruned(Pruned(schema)) == Pruned(schema)["components" := Obj(twice)];
      forall r
        ensures Survives(paths, once, r) <==> Survives(paths, before, r)
        ensures Reachable(paths, once, r) <==> Reachable(paths, before, r)
      {
        ReachableAfterPruning(schema, r);
      }
      forall kind | kind in once
        ensures kind in twice && twice[kind] == once[kind]
      {
        assert twice[kind].fields == once[kind].fields;
      }
      assert twice == once;
    }
  }

  // ---- filtering a schema to the scalar API ----

  function AllowedPaths(matrixPaths: set<string>): set<string> {
    (set p | p in matrixPaths :: PathTemplates.NormalizePath(p)) + {"/health"}
  }

  function KeptPaths(paths: map<string, Json>, matrixPaths: set<string>): map<string, Json> {
    map p | p in paths && PathTemplates.NormalizePath(p) in AllowedPaths(matrixPaths) :: paths[p]
  }

  ghost function Filtered(schema: map<string, Json>, matrixPaths: set<string>): map<string, Json> {
    if "paths" in schema && schema["paths"].Obj?
    then Pruned(schema["paths" := Obj(KeptPaths(schema["paths"].fields, matrixPaths))])
    else schema
  }

  /** A path that survives the filter keeps its item, and every component reference below it
      still leads to the component it led to before. */
  lemma SurvivingPathIntact(schema: map<string, Json>, matrixPaths: set<string>, path: string, r: Ref)
    requires "paths" in schema && schema["paths"].Obj? && path in schema["paths"].fields
    requires PathTemplates.NormalizePath(path) in AllowedPaths(matrixPaths)
    ensures var after := Filtered(schema, matrixPaths);
      && PathsOf(after).Obj? && path in PathsOf(after).fields
      && PathsOf(after).fields[path] == schema["paths"].fields[path]
      && (Mentions(schema["paths"].fields[path], r) && Resolves(ComponentsOf(schema), r) ==>
            Resolves(ComponentsOf(after), r)
            && Payload(ComponentsOf(after), r) == Payload(ComponentsOf(schema), r))
  {
    var narrowed := schema["paths" := Obj(KeptPaths(schema["paths"].fields, matrixPaths))];
    ResolvesAfterPruning(narrowed, r);
    assert ComponentsOf(narrowed) == ComponentsOf(schema);
    if Mentions(schema["paths"].fields[path], r) && Resolves(ComponentsOf(schema), r) {
      MentionsCases(PathsOf(narrowed), r);
      assert path in PathsOf(narrowed).fields.Keys;
      NoFollowedReferenceBreaks(narrowed, PathsOf(narrowed), r);
    }
  }

  /** A path stays exactly when, slashes at its end aside, it is some path of the matrix or the
      health path, and then its item is unchanged. */
  lemma FilteredPathsExactly(schema: map<string, Json>, matrixPaths: set<string>, path: string)
    requires "paths" in schema && schema["paths"].Obj?
    ensures var before, after := schema["paths"].fields, Filtered(schema, matrixPaths);
      && "paths" in after && after["paths"].Obj?
      && (path in after["paths"].fields <==>
            path in before
            && exists p :: (p in matrixPaths || p == "/health") && PathTemplates.SamePath(path, p))
      && (path in after["paths"].fields ==> after["paths"].fields[path] == before[path])
  {
    hide Pruned;
    var before := schema["paths"].fields;
    KeptPathsStay(schema, matrixPaths);
    PathTemplates.NormalizeEqualExactly(path, "/health");
    assert PathTemplates.NormalizePath("/health") == "/health" by {
      PathTemplates.NormalizeUnslashed("/health");
    }
    forall p
      ensures PathTemplates.NormalizePath(path) == PathTemplates.NormalizePath(p) <==> PathTemplates.SamePath(path, p)
    {
      PathTemplates.NormalizeEqualExactly(path, p);
    }
    AllowedExactly(matrixPaths, PathTemplates.NormalizePath(path));
  }

  lemma AllowedExactly(matrixPaths: set<string>, normal: string)
    ensures normal in AllowedPaths(matrixPaths) <==>
      normal == "/health" || exists p :: p in matrixPaths && PathTemplates.NormalizePath(p) == normal
  {
  }

  lemma KeptPathsStay(schema: map<string, Json>, matrixPaths: set<string>)
    requires "paths" in schema && schema["paths"].Obj?
    ensures "paths" in Filtered(schema, matrixPaths)
    ensures Filtered(schema, matrixPaths)["paths"] == Obj(KeptPaths(schema["paths"].fields, matrixPaths))
  {
  }

  /** The bucket of security schemes stays as it is. */
  lemma SecuritySchemesStay(schema: map<string, Json>, components: map<string, Json>)
    requires "components" in schema && schema["components"] == Obj(components)
    requires "securitySchemes" in components && components["securitySchemes"].Obj?
    ensures var after := Pruned(schema)["components"].fields;
      "securitySchemes" in after && after["securitySchemes"] == components["securitySchemes"]
  {
    hide Reachable;
    var after := Pruned(schema)["components"].fields;
    assert after["securitySchemes"].fields == components["securitySchemes"].fields;
  }

  /** A component that is null counts as missing: unless it is a security scheme, it goes. */
  lemma NullComponentGoes(schema: map<string, Json>, components: map<string, Json>, r: Ref)
    requires "components" in schema && schema["components"] == Obj(components)
    requires r.kind in components && components[r.kind].Obj? && r.name in components[r.kind].fields
    requires components[r.kind].fields[r.name] == Null && r.kind != "securitySchemes"
    ensures var after := Pruned(schema)["components"].fields;
      r.kind in after ==> after[r.kind].Obj? && r.name !in after[r.kind].fields
  {
    assert !Reachable(PathsOf(schema), components, r);
  }

  /** Filtering a filtered schema changes nothing. */
  lemma FilterIdempotent(schema: map<string, Json>, matrixPaths: set<string>)
    ensures Filtered(Filtered(schema, matrixPaths), matrixPaths) == Filtered(schema, matrixPaths)
  {
    if "paths" in schema && schema["paths"].Obj? {
      var kept := KeptPaths(schema["paths"].fields, matrixPaths);
      var narrowed := schema["paths" := Obj(kept)];
      assert KeptPaths(kept, matrixPaths) == kept;
      var once := Pruned(narrowed);
      assert once["paths"] == Obj(kept);
      assert once["paths" := Obj(kept)] == once;
      PruneIdempotent(narrowed);
    }
  }

  /** The bucket of one kind after pruning, or None when the kind is dropped. */
  method KeepBucket(kind: string, bucket: map<string, Json>, seen: set<Ref>) returns (kept: Option<Json>)
    ensures kept.None? <==> kind != SECURITY_SCHEMES && forall name :: name in bucket ==> Ref(kind, name) !in seen
    ensures kept.Some? ==> kept.value == Obj(map name |
      name in bucket && (kind == SECURITY_SCHEMES || Ref(kind, name) in seen) :: bucket[name])
  {
    if kind == SECURITY_SCHEMES {
      assert bucket == map name |
        name in bucket && (kind == SECURITY_SCHEMES || Ref(kind, name) in seen) :: bucket[name];
      return Some(Obj(bucket));
    }
    var members := map name | name in bucket && Ref(kind, name) in seen :: bucket[name];
    if members == map[] {
      assert forall name :: name in bucket && Ref(kind, name) in seen ==> name in members;
      kept := None;
    } else {
      var name :| name in members;
      kept := Some(Obj(members));
    }
  }

  /** A schema document whose `paths` and `components` entries are rewritten in place. */
  class OpenApiSchema {
    var fields: map<string, Json>

    constructor (fields: map<string, Json>)
      ensures this.fields == fields
    {
      this.fields := fields;
    }

    method PruneUnreferencedComponents()
      modifies this
      ensures fields == Pruned(old(fields))
    {
      hide Mentions, Reachable;
      var schema := fields;
      if "components" !in schema || !schema["components"].Obj? {
        return;
      }
      var components := schema["components"].fields;
      var paths := PathsOf(schema);
      var seen := CollectReachable(paths, components);
      ghost var goal := PrunedComponents(paths, components);
      var pruned: map<string, Json> := map[];
      var pending := components.Keys;
      while pending != {}
        invariant pending <= components.Keys
        invariant forall kind :: kind in pruned <==> kind in goal && kind !in pending
        invariant forall kind :: kind in pruned ==> pruned[kind] == goal[kind]
      {
        var kind :| kind in pending;
        pending := pending - {kind};
        if components[kind].Obj? {
          var kept := KeepBucket(kind, components[kind].fields, seen);
          if kept.Some? {
            pruned := pruned[kind := kept.value];
          }
        }
      }
      assert pruned == goal;
      fields := schema["components" := Obj(pruned)];
    }

    method FilterScalarOpenApi(matrixPaths: set<string>)
      modifies this
      ensures fields == Filtered(old(fields), matrixPaths)
    {
      if "paths" !in fields || !fields["paths"].Obj? {
        return;
      }
      fields := fields["paths" := Obj(KeptPaths(fields["paths"].fields, matrixPaths))];
      PruneUnreferencedComponents();
    }
  }
}
