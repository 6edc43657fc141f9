/** The capture tool (tools/compat_capture.py): a recursive scrub of JSON documents, the case
    built from an observed response, and the comparison of a later response with that case. */
module CompatCapture {
  import opened JsonTree
  import opened Text
  import opened Wrappers

  const TOKEN := "<token>"
  const SERIAL := "<serial>"
  const REDACTED := "<redacted>"
  const REDACTED_INVALID := "<redacted-invalid>"

  /** The two string scrubs, `_scrub_str(value)` and `_scrub_str(_scrub_cookie(value))`. Nothing
      is taken for granted about them. */
  datatype Scrubs = Scrubs(plain: string -> string, cookie: string -> string)

  // ---- key rules ----

  /** Lower case, without underscores and hyphens. */
  function Norm(key: string): string {
    if key == [] then []
    else (if key[0] == '_' || key[0] == '-' then [] else [LowerChar(key[0])]) + Norm(key[1..])
  }

  predicate PasswordKey(key: string) {
    var k := Norm(key);
    Contains(k, "password") || Contains(k, "passwd")
  }

  predicate CookieKey(key: string) {
    var k := Norm(key);
    Contains(k, "cookie") || Contains(k, "setcookie")
  }

  predicate TokenKey(key: string) {
    var k := Norm(key);
    Contains(k, "session") || Contains(k, "token") || Contains(k, "authorization") || Contains(k, "apikey")
  }

  predicate SerialKey(key: string) {
    Contains(Norm(key), "serial")
  }

  // ---- the scrub ----

  predicate IsLeaf(j: Json) {
    j.Number? || j.Str?
  }

  /** Masks every number and string below, except strings in `keep`. */
  function MaskLeaves(j: Json, mark: string, keep: set<string>): Json {
    match j
    case Null => j
    case Bool(_) => j
    case Number(_) => Str(mark)
    case Str(text) => if text in keep then j else Str(mark)
    case Arr(items) =>
      Arr(seq(|items|, i requires 0 <= i < |items| => MaskLeaves(items[i], mark, keep)))
    case Obj(fields) =>
      Obj(map k | k in fields :: MaskLeaves(fields[k], mark, keep))
  }

  const KEPT := {REDACTED, REDACTED_INVALID}

  /** What becomes of the value under one key. */
  function WalkEntry(s: Scrubs, key: string, value: Json): Json
    decreases value, 1
  {
    if value.Null? || value.Bool? then value
    else if PasswordKey(key) then MaskLeaves(value, REDACTED, KEPT)
    else if CookieKey(key) && value.Str? then Str(s.cookie(value.text))
    else if TokenKey(key) then MaskLeaves(value, TOKEN, {})
    else if SerialKey(key) then MaskLeaves(value, SERIAL, {})
    else Walk(s, value)
  }

  function Walk(s: Scrubs, j: Json): Json
    decreases j, 0
  {
    match j
    case Obj(fields) => Obj(map k | k in fields :: WalkEntry(s, k, fields[k]))
    case Arr(items) => Arr(seq(|items|, i requires 0 <= i < |items| => Walk(s, items[i])))
    case Str(text) => Str(s.plain(text))
    case _ => j
  }

  // ---- shape ----

  /** Same keys and lengths throughout; nulls and booleans equal; leaves stay leaves. */
  predicate SameShape(a: Json, b: Json) {
    match a
    case Null => b == a
    case Bool(_) => b == a
    case Number(_) => IsLeaf(b)
    case Str(_) => IsLeaf(b)
    case Arr(items) =>
      b.Arr? && |b.items| == |items| && forall i :: 0 <= i < |items| ==> SameShape(items[i], b.items[i])
    case Obj(fields) =>
      b.Obj? && b.fields.Keys == fields.Keys && forall k :: k in fields ==> SameShape(fields[k], b.fields[k])
  }

  lemma {:induction false} MaskShape(j: Json, mark: string, keep: set<string>)
    ensures SameShape(j, MaskLeaves(j, mark, keep))
  {
    if j.Arr? {
      forall i | 0 <= i < |j.items|
        ensures SameShape(j.items[i], MaskLeaves(j, mark, keep).items[i])
      {
        MaskShape(j.items[i], mark, keep);
      }
    } else if j.Obj? {
      forall k | k in j.fields
        ensures SameShape(j.fields[k], MaskLeaves(j, mark, keep).fields[k])
      {
        MaskShape(j.fields[k], mark, keep);
      }
    }
  }

  lemma {:induction false} EntryShape(s: Scrubs, key: string, value: Json)
    ensures SameShape(value, WalkEntry(s, key, value))
    decreases value, 1
  {
    MaskShape(value, REDACTED, KEPT);
    MaskShape(value, TOKEN, {});
    MaskShape(value, SERIAL, {});
    WalkShape(s, value);
  }

  /** The scrub keeps the shape of every document. */
  lemma {:induction false} WalkShape(s: Scrubs, j: Json)
    ensures SameShape(j, Walk(s, j))
    decreases j, 0
  {
    if j.Arr? {
      forall i | 0 <= i < |j.items|
        ensures SameShape(j.items[i], Walk(s, j).items[i])
      {
        WalkShape(s, j.items[i]);
      }
    } else if j.Obj? {
      forall k | k in j.fields
        ensures SameShape(j.fields[k], Walk(s, j).fields[k])
      {
        EntryShape(s, k, j.fields[k]);
      }
    }
  }

  // ---- idempotence ----

  lemma {:induction false} MaskIdempotent(j: Json, mark: string, keep: set<string>)
    requires keep == {} || mark in keep
    ensures MaskLeaves(MaskLeaves(j, mark, keep), mark, keep) == MaskLeaves(j, mark, keep)
  {
    var once := MaskLeaves(j, mark, keep);
    if j.Arr? {
      forall i | 0 <= i < |j.items|
        ensures MaskLeaves(once.items[i], mark, keep) == once.items[i]
      {
        MaskIdempotent(j.items[i], mark, keep);
      }
      assert MaskLeaves(once, mark, keep).items == once.items;
    } else if j.Obj? {
      forall k | k in j.fields
        ensures MaskLeaves(once.fields[k], mark, keep) == once.fields[k]
      {
        MaskIdempotent(j.fields[k], mark, keep);
      }
      assert MaskLeaves(once, mark, keep).fields == once.fields;
    }
  }

  /** Every string that the plain or the cookie rule reaches is settled by its scrub, and the
      cookie scrub leaves alone a mark that it will meet in place of a number. */
  predicate Settled(s: Scrubs, j: Json)
    decreases j, 0
  {
    match j
    case Obj(fields) => forall k :: k in fields ==> SettledEntry(s, k, fields[k])
    case Arr(items) => forall i :: 0 <= i < |items| ==> Settled(s, items[i])
    case Str(text) => s.plain(s.plain(text)) == s.plain(text)
    case _ => true
  }

  predicate SettledEntry(s: Scrubs, key: string, value: Json)
    decreases value, 1
  {
    if value.Null? || value.Bool? || PasswordKey(key) then true
    else if CookieKey(key) && value.Str? then s.cookie(s.cookie(value.text)) == s.cookie(value.text)
    else if TokenKey(key) then CookieKey(key) && value.Number? ==> s.cookie(TOKEN) == TOKEN
    else if SerialKey(key) then CookieKey(key) && value.Number? ==> s.cookie(SERIAL) == SERIAL
    else Settled(s, value)
  }

  lemma {:induction false} EntryIdempotentExactly(s: Scrubs, key: string, value: Json)
    ensures WalkEntry(s, key, WalkEntry(s, key, value)) == WalkEntry(s, key, value) <==> SettledEntry(s, key, value)
    decreases value, 1
  {
    hide PasswordKey, CookieKey, TokenKey, SerialKey;
    MaskIdempotent(value, REDACTED, KEPT);
    MaskIdempotent(value, TOKEN, {});
    MaskIdempotent(value, SERIAL, {});
    WalkIdempotentExactly(s, value);
    EntryShape(s, key, value);
  }

  /** Scrubbing a scrubbed document changes nothing exactly when the document is settled. */
  lemma {:induction false} WalkIdempotentExactly(s: Scrubs, j: Json)
    ensures Walk(s, Walk(s, j)) == Walk(s, j) <==> Settled(s, j)
    decreases j, 0
  {
    hide WalkEntry, SettledEntry;
    var once := Walk(s, j);
    if j.Arr? {
      forall i | 0 <= i < |j.items|
        ensures Walk(s, once.items[i]) == once.items[i] <==> Settled(s, j.items[i])
      {
        WalkIdempotentExactly(s, j.items[i]);
      }
      assert Walk(s, once) == once <==> Walk(s, once).items == once.items;
      assert forall i :: 0 <= i < |j.items| ==> Walk(s, once).items[i] == Walk(s, once.items[i]);
    } else if j.Obj? {
      forall k | k in j.fields
        ensures WalkEntry(s, k, once.fields[k]) == once.fields[k] <==> SettledEntry(s, k, j.fields[k])
      {
        EntryIdempotentExactly(s, k, j.fields[k]);
      }
      assert Walk(s, once) == once <==> Walk(s, once).fields == once.fields;
      assert forall k :: k in j.fields ==> Walk(s, once).fields[k] == WalkEntry(s, k, once.fields[k]);
    }
  }

  /** The scrub's two passes over one string: the bearer rule leaves a placeholder that the
      element rule of the next pass takes for an opening tag. */
  ghost predicate BearerThenElement(s: Scrubs) {
    && s.plain("Bearer x yy</token>") == "Bearer <token> yy</token>"
    && s.plain("Bearer <token> yy</token>") == "Bearer <token><token></token>"
  }

  /** So a second pass can change a scrubbed document. */
  lemma SecondPassCanChange(s: Scrubs)
    requires BearerThenElement(s)
    ensures var j := Obj(map["x" := Str("Bearer x yy</token>")]); Walk(s, Walk(s, j)) != Walk(s, j)
  {
    hide PlainKey;
    var first, second := "Bearer x yy</token>", "Bearer <token> yy</token>";
    PlainByLetters("x", 'p', 's', 'a');
    WalkOneText(s, "x", first);
    WalkOneText(s, "x", second);
    assert s.plain(second) != second;
    assert map["x" := Str(s.plain(second))]["x"] != map["x" := Str(second)]["x"];
  }

  // ---- which leaf becomes what ----

  datatype Crumb = Key(key: string) | Index(i: nat)

  /** The value at a path of keys and indices, if the path exists. */
  function At(j: Json, path: seq<Crumb>): Option<Json> {
    if path == [] then Some(j)
    else match path[0]
      case Key(k) => if j.Obj? && k in j.fields then At(j.fields[k], path[1..]) else None
      case Index(i) => if j.Arr? && i < |j.items| then At(j.items[i], path[1..]) else None
  }

  datatype Rule = Plain | Cookie | Password | Secret(mark: string)

  /** The rule for a leaf, read off the keys above it alone: the outermost password, token or
      serial key decides, except that a string directly under a cookie key is a cookie. */
  function Governing(path: seq<Crumb>, leafIsString: bool): Rule {
    if path == [] then Plain
    else if path[0].Index? then Governing(path[1..], leafIsString)
    else
      var k := path[0].key;
      if PasswordKey(k) then Password
      else if CookieKey(k) && |path| == 1 && leafIsString then Cookie
      else if TokenKey(k) then Secret(TOKEN)
      else if SerialKey(k) then Secret(SERIAL)
      else Governing(path[1..], leafIsString)
  }

  function ScrubbedLeaf(s: Scrubs, rule: Rule, leaf: Json): Json
    requires IsLeaf(leaf)
  {
    match rule
    case Plain => if leaf.Str? then Str(s.plain(leaf.text)) else leaf
    case Cookie => if leaf.Str? then Str(s.cookie(leaf.text)) else leaf
    case Password => if leaf.Str? && leaf.text in KEPT then leaf else Str(REDACTED)
    case Secret(mark) => Str(mark)
  }

  lemma {:induction false} MaskAt(j: Json, mark: string, keep: set<string>, path: seq<Crumb>)
    requires At(j, path).Some? && IsLeaf(At(j, path).value)
    ensures var leaf := At(j, path).value;
      At(MaskLeaves(j, mark, keep), path) == Some(if leaf.Str? && leaf.text in keep then leaf else Str(mark))
  {
    if path != [] {
      match path[0]
      case Key(k) => MaskAt(j.fields[k], mark, keep, path[1..]);
      case Index(i) => MaskAt(j.items[i], mark, keep, path[1..]);
    }
  }

  /** Every leaf of the scrubbed document is the leaf of the original at the same path, treated
      by the rule that the keys above it select. */
  lemma {:induction false} WalkLeafwise(s: Scrubs, j: Json, path: seq<Crumb>)
    requires At(j, path).Some? && IsLeaf(At(j, path).value)
    ensures var leaf := At(j, path).value;
      At(Walk(s, j), path) == Some(ScrubbedLeaf(s, Governing(path, leaf.Str?), leaf))
  {
    if path != [] {
      match path[0]
      case Index(i) => WalkLeafwise(s, j.items[i], path[1..]);
      case Key(k) =>
        var value := j.fields[k];
        if PasswordKey(k) {
          MaskAt(value, REDACTED, KEPT, path[1..]);
        } else if CookieKey(k) && value.Str? {
          assert path[1..] == [];
        } else if TokenKey(k) {
          MaskAt(value, TOKEN, {}, path[1..]);
        } else if SerialKey(k) {
          MaskAt(value, SERIAL, {}, path[1..]);
        } else {
          WalkLeafwise(s, value, path[1..]);
        }
    }
  }

  const PLACEHOLDERS := {Str(REDACTED), Str(REDACTED_INVALID), Str(TOKEN), Str(SERIAL)}

  predicate SecretCrumb(c: Crumb) {
    c.Key? && (PasswordKey(c.key) || TokenKey(c.key) || SerialKey(c.key))
  }

  lemma {:induction false} GoverningSecret(path: seq<Crumb>, leafIsString: bool, i: nat)
    requires i < |path| && SecretCrumb(path[i])
    ensures Governing(path, leafIsString) != Plain
    ensures Governing(path, leafIsString) == Cookie ==>
      leafIsString && path[|path| - 1].Key? && CookieKey(path[|path| - 1].key)
  {
    if i > 0 {
      GoverningSecret(path[1..], leafIsString, i - 1);
    }
  }

  /** No number or string beneath a secret key survives: it is a placeholder, unless it is a
      string directly under a cookie key. */
  lemma SecretsCovered(s: Scrubs, j: Json, path: seq<Crumb>, i: nat)
    requires At(j, path).Some? && IsLeaf(At(j, path).value)
    requires i < |path| && SecretCrumb(path[i])
    requires !(At(j, path).value.Str? && path[|path| - 1].Key? && CookieKey(path[|path| - 1].key))
    ensures At(Walk(s, j), path).Some? && At(Walk(s, j), path).value in PLACEHOLDERS
  {
    hide PasswordKey, CookieKey, TokenKey, SerialKey;
    WalkLeafwise(s, j, path);
    GoverningSecret(path, At(j, path).value.Str?, i);
    SecretMarks(path, At(j, path).value.Str?);
  }

  lemma {:induction false} SecretMarks(path: seq<Crumb>, leafIsString: bool)
    ensures var rule := Governing(path, leafIsString); rule.Secret? ==> rule.mark == TOKEN || rule.mark == SERIAL
  {
    if path != [] {
      SecretMarks(path[1..], leafIsString);
    }
  }

  // ---- which keys are secret ----

  predicate SmallLetters(w: string) {
    forall k :: 0 <= k < |w| ==> 'a' <= w[k] <= 'z'
  }

  /** `x` is the word `w` with letters in either case, and underscores and hyphens anywhere. */
  predicate Disguises(x: string, w: string) {
    if x == [] then w == []
    else if x[0] == '_' || x[0] == '-' then Disguises(x[1..], w)
    else w != [] && (x[0] == w[0] || x[0] as int + 32 == w[0] as int) && Disguises(x[1..], w[1..])
  }

  /** The word stands in the key, in any such spelling. */
  ghost predicate Spells(key: string, w: string) {
    exists i, j :: 0 <= i <= j <= |key| && Disguises(key[i..j], w)
  }

  lemma NormCons(c: char, rest: string)
    ensures Norm([c] + rest) == (if c == '_' || c == '-' then [] else [LowerChar(c)]) + Norm(rest)
  {
    hide LowerChar;
    assert ([c] + rest)[1..] == rest;
  }

  lemma Associates(a: string, b: string, c: string)
    ensures a + (b + c) == (a + b) + c
  {
  }

  lemma {:induction false} NormConcat(a: string, b: string)
    ensures Norm(a + b) == Norm(a) + Norm(b)
  {
    if a == [] {
      assert a + b == b;
    } else {
      hide *;
      NormConcat(a[1..], b);
      assert a == [a[0]] + a[1..];
      Associates([a[0]], a[1..], b);
      NormCons(a[0], a[1..] + b);
      NormCons(a[0], a[1..]);
      Associates(if a[0] == '_' || a[0] == '-' then [] else [LowerChar(a[0])], Norm(a[1..]), Norm(b));
    }
  }

  lemma LowerIs(c: char, d: char)
    requires 'a' <= d <= 'z'
    ensures LowerChar(c) == d <==> c == d || c as int + 32 == d as int
  {
  }

  lemma {:induction false} DisguiseNorm(x: string, w: string)
    requires SmallLetters(w)
    ensures Disguises(x, w) <==> Norm(x) == w
  {
    hide LowerChar;
    if x != [] {
      if x[0] == '_' || x[0] == '-' {
        DisguiseNorm(x[1..], w);
      } else if w != [] {
        DisguiseNorm(x[1..], w[1..]);
        LowerIs(x[0], w[0]);
        assert w == [w[0]] + w[1..];
      }
    }
  }

  lemma {:induction false} PrefixSpelled(key: string, w: string) returns (n: nat)
    requires SmallLetters(w) && w <= Norm(key)
    ensures n <= |key| && Disguises(key[..n], w)
  {
    hide LowerChar;
    if w == [] {
      n := 0;
    } else if key[0] == '_' || key[0] == '-' {
      n := PrefixSpelled(key[1..], w);
      n := n + 1;
      assert key[..n][1..] == key[1..][..n - 1];
    } else {
      LowerIs(key[0], w[0]);
      n := PrefixSpelled(key[1..], w[1..]);
      n := n + 1;
      assert key[..n][1..] == key[1..][..n - 1];
    }
  }

  lemma {:induction false} SpelledSomewhere(key: string, w: string) returns (i: nat, j: nat)
    requires SmallLetters(w) && w != [] && Contains(Norm(key), w)
    ensures i <= j <= |key| && Disguises(key[i..j], w)
  {
    hide LowerChar, Disguises;
    if w <= Norm(key) {
      j := PrefixSpelled(key, w);
      i := 0;
      assert key[0..j] == key[..j];
    } else {
      assert Norm(key)[1..] == Norm(key[1..]) || Norm(key) == Norm(key[1..]);
      i, j := SpelledSomewhere(key[1..], w);
      assert key[1..][i..j] == key[i + 1..j + 1];
      i, j := i + 1, j + 1;
    }
  }

  /** The needle search on the normalized key finds a word exactly when the key spells it. */
  lemma SpellsExactly(key: string, w: string)
    requires SmallLetters(w) && w != []
    ensures Contains(Norm(key), w) <==> Spells(key, w)
  {
    hide Norm, Disguises, Contains;
    if Contains(Norm(key), w) {
      var i, j := SpelledSomewhere(key, w);
    }
    if Spells(key, w) {
      var i, j :| 0 <= i <= j <= |key| && Disguises(key[i..j], w);
      DisguiseNorm(key[i..j], w);
      NormConcat(key[..i], key[i..]);
      NormConcat(key[i..j], key[j..]);
      assert key[..i] + key[i..] == key && key[i..j] + key[j..] == key[i..];
      var before, after := Norm(key[..i]), Norm(key[j..]);
      assert Norm(key) == before + (w + after);
      assert (before + (w + after))[|before|..|before| + |w|] == w;
      ContainsSlice(Norm(key), |before|, |before| + |w|);
    }
  }

  /** The four kinds of key, by the words they spell. */
  lemma KeyKindsExactly(key: string)
    ensures PasswordKey(key) <==> Spells(key, "password") || Spells(key, "passwd")
    ensures CookieKey(key) <==> Spells(key, "cookie") || Spells(key, "setcookie")
    ensures TokenKey(key) <==>
      Spells(key, "session") || Spells(key, "token") || Spells(key, "authorization") || Spells(key, "apikey")
    ensures SerialKey(key) <==> Spells(key, "serial")
  {
    hide Spells, Contains, Norm;
    SpellsExactly(key, "password");
    SpellsExactly(key, "passwd");
    SpellsExactly(key, "cookie");
    SpellsExactly(key, "setcookie");
    SpellsExactly(key, "session");
    SpellsExactly(key, "token");
    SpellsExactly(key, "authorization");
    SpellsExactly(key, "apikey");
    SpellsExactly(key, "serial");
  }

  /** What becomes of a number or a string directly under a key, by the words the key spells. */
  lemma LeafExactly(s: Scrubs, key: string, leaf: Json)
    requires IsLeaf(leaf)
    ensures WalkEntry(s, key, leaf) ==
      if Spells(key, "password") || Spells(key, "passwd") then
        (if leaf == Str("<redacted>") || leaf == Str("<redacted-invalid>") then leaf else Str("<redacted>"))
      else if leaf.Str? && (Spells(key, "cookie") || Spells(key, "setcookie")) then Str(s.cookie(leaf.text))
      else if Spells(key, "session") || Spells(key, "token") || Spells(key, "authorization") || Spells(key, "apikey")
      then Str("<token>")
      else if Spells(key, "serial") then Str("<serial>")
      else if leaf.Str? then Str(s.plain(leaf.text))
      else leaf
  {
    hide Spells, PasswordKey, CookieKey, TokenKey, SerialKey;
    KeyKindsExactly(key);
  }

  /** However deep below it and however it is spelled, a listed word hides every number and string,
      but for a string right under a cookie key. */
  lemma SpelledSecretCovered(s: Scrubs, j: Json, path: seq<Crumb>, i: nat, word: string)
    requires At(j, path).Some? && IsLeaf(At(j, path).value)
    requires i < |path| && path[i].Key? && Spells(path[i].key, word)
    requires word in {"password", "passwd", "session", "token", "authorization", "apikey", "serial"}
    requires !(At(j, path).value.Str? && path[|path| - 1].Key? && Spells(path[|path| - 1].key, "cookie"))
    ensures At(Walk(s, j), path).Some?
    ensures At(Walk(s, j), path).value in
      {Str("<redacted>"), Str("<redacted-invalid>"), Str("<token>"), Str("<serial>")}
  {
    hide Spells, PasswordKey, CookieKey, TokenKey, SerialKey, Walk;
    KeyKindsExactly(path[i].key);
    if path[|path| - 1].Key? {
      KeyKindsExactly(path[|path| - 1].key);
      CookieInSetCookie(path[|path| - 1].key);
    }
    SecretsCovered(s, j, path, i);
  }

  lemma CookieInSetCookie(key: string)
    ensures Spells(key, "setcookie") ==> Spells(key, "cookie")
  {
    hide Contains, Norm, Spells;
    SpellsExactly(key, "setcookie");
    SpellsExactly(key, "cookie");
    if Contains(Norm(key), "setcookie") {
      assert "setcookie"[3..9] == "cookie";
      ContainsSlice("setcookie", 3, 9);
      ContainsWithin(Norm(key), "setcookie", "cookie");
    }
  }

  // ---- building a case ----

  /** Header names are lower case; `body` is the parsed JSON, or the text as a string. */
  datatype Response = Response(status: int, headers: map<string, string>, body: Json)

  datatype Options = Options(
    source: string, profile: string, firmware: string, attest: string, login: string)

  datatype CaptureError = UnknownSource | UnattestedCapture | RequestNotAnObject

  const RECIPE_KEYS := {"id", "profile", "firmware", "auth", "manual_ref", "request"}
  const FIDELITY_NOTES := "self-captured, no evidence of appliance fidelity"

  function Sanitize(s: Scrubs, fields: map<string, Json>): map<string, Json> {
    map k | k in fields :: WalkEntry(s, k, fields[k])
  }

  /** The media type part of a content type. */
  function MediaType(contentType: string): string {
    Trim(Split(contentType, ';')[0])
  }

  function ContentType(resp: Response): string {
    if "content-type" in resp.headers then resp.headers["content-type"] else ""
  }

  /** The scrubbed body: `sanitize({"b": raw})["b"]`. */
  function CleanBody(s: Scrubs, body: Json): (clean: Json)
    ensures SameShape(body, clean)
  {
    EntryShape(s, "b", body);
    Sanitize(s, map["b" := body])["b"]
  }

  /** The top-level fields of the body that scrubbing left as they were. */
  function Untouched(s: Scrubs, body: Json): map<string, Json>
    requires body.Obj?
  {
    var clean := CleanBody(s, body).fields;
    map k | k in clean && clean[k] == body.fields[k] :: clean[k]
  }

  function Expected(s: Scrubs, resp: Response): map<string, Json> {
    var status := map["status" := Number(resp.status as real)];
    var headers :=
      if ContentType(resp) == "" then map[]
      else map["headers" := Obj(map["content-type" := Str(MediaType(ContentType(resp)))])];
    var contains := if resp.body.Obj? then map["json_contains" := Obj(Untouched(s, resp.body))] else map[];
    status + headers + contains
  }

  function Observed(s: Scrubs, resp: Response): Json {
    var headers := map k | k in resp.headers && k != "date" :: Str(resp.headers[k]);
    Obj(map["headers" := Obj(headers), "body" := CleanBody(s, resp.body)])
  }

  /** The part of `user:password` after the first colon, or None without a login. */
  function GoodPassword(login: string): Option<string> {
    if login == "" then None
    else
      var i := IndexOf(login, ':');
      Some(if i < |login| then login[i + 1..] else "")
  }

  function MarkedPayload(payload: map<string, Json>, good: Option<string>): map<string, Json> {
    map k | k in payload ::
      if PasswordKey(k) && payload[k].Str? && Some(payload[k].text) != good
      then Str(REDACTED_INVALID) else payload[k]
  }

  function MarkedRequest(request: map<string, Json>, good: Option<string>): map<string, Json> {
    if "json" in request && request["json"].Obj?
    then request["json" := Obj(MarkedPayload(request["json"].fields, good))]
    else request
  }

  function Provenance(o: Options): map<string, Json> {
    (if o.profile != "" then map["profile" := Str(o.profile)] else map[])
    + if o.source == "captured"
      then map["firmware" := Str(o.firmware), "attested_by" := Str(o.attest)]
      else map["captured_from" := Str("openblade-emulator"), "fidelity_notes" := Str(FIDELITY_NOTES)]
  }

  /** What the case holds besides its provenance. */
  function Recorded(s: Scrubs, recipe: map<string, Json>, resp: Response, o: Options): map<string, Json>
    requires "request" in recipe ==> recipe["request"].Obj?
  {
    var copied := map k | k in RECIPE_KEYS && k in recipe :: recipe[k];
    var request :=
      if "request" in recipe
      then map["request" := Obj(MarkedRequest(recipe["request"].fields, GoodPassword(o.login)))]
      else map[];
    copied + map[
      "source" := Str(o.source), "expected" := Obj(Expected(s, resp)), "observed" := Observed(s, resp)]
    + request
  }

  /** The case before its final scrub. */
  function DraftCase(s: Scrubs, recipe: map<string, Json>, resp: Response, o: Options): map<string, Json>
    requires "request" in recipe ==> recipe["request"].Obj?
  {
    Recorded(s, recipe, resp, o) + Provenance(o)
  }

  function BuildCase(s: Scrubs, recipe: map<string, Json>, resp: Response, o: Options)
    : Result<map<string, Json>, CaptureError>
  {
    if o.source != "self-captured" && o.source != "captured" then Failure(UnknownSource)
    else if o.source == "captured" && (o.firmware == "" || o.attest == "") then Failure(UnattestedCapture)
    else if "request" in recipe && !recipe["request"].Obj? then Failure(RequestNotAnObject)
    else Success(Sanitize(s, DraftCase(s, recipe, resp, o)))
  }

  // ---- comparing a response with a case ----

  datatype Problem =
    | StatusDiffers
    | HeaderLacks(name: string)
    | BodyNotAnObject
    | FieldDiffers(key: string)

  predicate AllText(fields: map<string, Json>) {
    forall name :: name in fields ==> fields[name].Str?
  }

  /** What the comparison itself relies on in a case. */
  predicate Comparable(c: map<string, Json>) {
    && "expected" in c && c["expected"].Obj?
    && var exp := c["expected"].fields;
       && "status" in exp
       && ("headers" in exp ==> exp["headers"].Obj? && AllText(exp["headers"].fields))
       && ("json_contains" in exp ==> exp["json_contains"].Obj?)
  }

  predicate HeaderOk(resp: Response, name: string, needle: string) {
    Lower(name) in resp.headers && Contains(resp.headers[Lower(name)], needle)
  }

  predicate FieldOk(body: map<string, Json>, key: string, value: Json) {
    key in body && body[key] == value
  }

  ghost predicate IsProblem(c: map<string, Json>, resp: Response, p: Problem)
    requires Comparable(c)
  {
    var exp := c["expected"].fields;
    match p
    case StatusDiffers => exp["status"] != Number(resp.status as real)
    case HeaderLacks(name) =>
      "headers" in exp && name in exp["headers"].fields && !HeaderOk(resp, name, exp["headers"].fields[name].text)
    case BodyNotAnObject => "json_contains" in exp && !resp.body.Obj?
    case FieldDiffers(key) =>
      && "json_contains" in exp && resp.body.Obj? && key in exp["json_contains"].fields
      && !FieldOk(resp.body.fields, key, exp["json_contains"].fields[key])
  }

  method HeaderProblems(resp: Response, headers: map<string, Json>) returns (problems: seq<Problem>)
    requires forall name :: name in headers ==> headers[name].Str?
    ensures forall p :: p in problems <==>
      p.HeaderLacks? && p.name in headers && !HeaderOk(resp, p.name, headers[p.name].text)
  {
    problems := [];
    var pending := headers.Keys;
    while pending != {}
      invariant pending <= headers.Keys
      invariant forall p :: p in problems <==>
        p.HeaderLacks? && p.name in headers && p.name !in pending && !HeaderOk(resp, p.name, headers[p.name].text)
    {
      var name :| name in pending;
      if !HeaderOk(resp, name, headers[name].text) {
        problems := problems + [HeaderLacks(name)];
      }
      pending := pending - {name};
    }
  }

  method FieldProblems(body: map<string, Json>, wanted: map<string, Json>) returns (problems: seq<Problem>)
    ensures forall p :: p in problems <==>
      p.FieldDiffers? && p.key in wanted && !FieldOk(body, p.key, wanted[p.key])
  {
    problems := [];
    var pending := wanted.Keys;
    while pending != {}
      invariant pending <= wanted.Keys
      invariant forall p :: p in problems <==>
        p.FieldDiffers? && p.key in wanted && p.key !in pending && !FieldOk(body, p.key, wanted[p.key])
    {
      var key :| key in pending;
      if !FieldOk(body, key, wanted[key]) {
        problems := problems + [FieldDiffers(key)];
      }
      pending := pending - {key};
    }
  }

  method Drift(c: map<string, Json>, resp: Response) returns (problems: seq<Problem>)
    requires Comparable(c)
    ensures forall p :: p in problems <==> IsProblem(c, resp, p)
  {
    hide HeaderOk, FieldOk;
    var exp := c["expected"].fields;
    problems := if exp["status"] != Number(resp.status as real) then [StatusDiffers] else [];
    if "headers" in exp {
      var more := HeaderProblems(resp, exp["headers"].fields);
      problems := problems + more;
    }
    if "json_contains" in exp {
      if !resp.body.Obj? {
        problems := problems + [BodyNotAnObject];
      } else {
        var more := FieldProblems(resp.body.fields, exp["json_contains"].fields);
        problems := problems + more;
      }
    }
  }

  /** There is nothing to report exactly when the status is the expected one, every expected
      header value stands in the response's, and every expected field is equal in its body. */
  lemma NoProblemExactly(c: map<string, Json>, resp: Response)
    requires Comparable(c)
    ensures var exp := c["expected"].fields;
      (forall p :: !IsProblem(c, resp, p)) <==>
        && exp["status"] == Number(resp.status as real)
        && ("headers" in exp ==> forall name :: name in exp["headers"].fields ==>
              Lower(name) in resp.headers
              && Contains(resp.headers[Lower(name)], exp["headers"].fields[name].text))
        && ("json_contains" in exp ==>
              resp.body.Obj? && forall key :: key in exp["json_contains"].fields ==>
                key in resp.body.fields && resp.body.fields[key] == exp["json_contains"].fields[key])
  {
    hide Contains, Lower;
    var exp := c["expected"].fields;
    if forall p :: !IsProblem(c, resp, p) {
      assert !IsProblem(c, resp, StatusDiffers) && !IsProblem(c, resp, BodyNotAnObject);
      if "headers" in exp {
        assert forall name :: name in exp["headers"].fields ==> !IsProblem(c, resp, HeaderLacks(name));
      }
      if "json_contains" in exp {
        assert forall key :: key in exp["json_contains"].fields ==> !IsProblem(c, resp, FieldDiffers(key));
      }
    }
  }

  // ---- laws of capture and replay ----

  /** A key that no rule matches. */
  predicate PlainKey(key: string) {
    !PasswordKey(key) && !CookieKey(key) && !TokenKey(key) && !SerialKey(key)
  }

  lemma {:induction false} MissingLetter(s: string, part: string, c: char)
    requires c in part && c !in s
    ensures !Contains(s, part)
  {
    if s != [] {
      MissingLetter(s[1..], part, c);
    }
  }

  predicate Lacks(key: string, c: char) {
    c !in key && UpperChar(c) !in key
  }

  lemma {:induction false} NormLacks(key: string, c: char)
    requires 'a' <= c <= 'z' && Lacks(key, c)
    ensures c !in Norm(key)
  {
    if key != [] {
      assert key[0] in key;
      NormLacks(key[1..], c);
    }
  }

  /** A key without `k`, without a letter of "passwd", without a letter shared by "session" and
      "serial" and without a letter of "authorization" matches no rule. */
  lemma PlainByLetters(key: string, p: char, s: char, a: char)
    requires Lacks(key, 'k') && Lacks(key, p) && Lacks(key, s) && Lacks(key, a)
    requires p == 'p' || p == 's'
    requires s == 's' || s == 'e' || s == 'i'
    requires a == 'a' || a == 'h' || a == 'u'
    ensures PlainKey(key)
  {
    hide Contains, Norm, Lacks;
    var n := Norm(key);
    NormLacks(key, 'k');
    NormLacks(key, p);
    NormLacks(key, s);
    NormLacks(key, a);
    MissingLetter(n, "password", p);
    MissingLetter(n, "passwd", p);
    MissingLetter(n, "cookie", 'k');
    MissingLetter(n, "setcookie", 'k');
    MissingLetter(n, "session", s);
    MissingLetter(n, "token", 'k');
    MissingLetter(n, "authorization", a);
    MissingLetter(n, "apikey", 'k');
    MissingLetter(n, "serial", s);
  }

  lemma PlainExpected()
    ensures PlainKey("expected")
  {
    hide PlainKey;
    PlainByLetters("expected", 's', 's', 'a');
  }

  lemma PlainStatus()
    ensures PlainKey("status")
  {
    hide PlainKey;
    PlainByLetters("status", 'p', 'e', 'h');
  }

  lemma PlainHeaders()
    ensures PlainKey("headers")
  {
    hide PlainKey;
    PlainByLetters("headers", 'p', 'i', 'u');
  }

  lemma PlainContentType()
    ensures PlainKey("content-type")
  {
    hide PlainKey;
    PlainByLetters("content-type", 's', 's', 'a');
  }

  lemma PlainJsonContains()
    ensures PlainKey("json_contains")
  {
    hide PlainKey;
    PlainByLetters("json_contains", 'p', 'e', 'h');
  }

  lemma PlainRequest()
    ensures PlainKey("request")
  {
    hide PlainKey;
    PlainByLetters("request", 'p', 'i', 'a');
  }

  lemma PlainJson()
    ensures PlainKey("json")
  {
    hide PlainKey;
    PlainByLetters("json", 'p', 'e', 'a');
  }

  lemma ScrubbedFields(s: Scrubs, fields: map<string, Json>)
    requires forall k :: k in fields ==> PlainKey(k)
    ensures Walk(s, Obj(fields)) == Obj(map k | k in fields :: Walk(s, fields[k]))
  {
    hide PlainKey;
    forall k | k in fields
      ensures WalkEntry(s, k, fields[k]) == Walk(s, fields[k])
    {
      PlainEntry(s, k, fields[k]);
    }
  }

  lemma PlainEntry(s: Scrubs, key: string, value: Json)
    requires PlainKey(key)
    ensures WalkEntry(s, key, value) == Walk(s, value)
  {
    hide PasswordKey, CookieKey, TokenKey, SerialKey;
  }

  lemma CleanBodyIsWalk(s: Scrubs, body: Json)
    ensures CleanBody(s, body) == Walk(s, body)
  {
    hide PlainKey;
    PlainByLetters("b", 'p', 's', 'a');
    PlainEntry(s, "b", body);
  }

  /** The fields recorded as enforceable pass the final scrub unchanged. */
  lemma UntouchedFixed(s: Scrubs, body: Json)
    requires body.Obj?
    ensures Walk(s, Obj(Untouched(s, body))) == Obj(Untouched(s, body))
  {
    hide WalkEntry, CleanBody;
    CleanBodyIsWalk(s, body);
    assert Walk(s, Obj(Untouched(s, body))).fields == Untouched(s, body);
  }

  /** What the scrub leaves of the expectation. */
  ghost predicate ScrubbedExpectation(s: Scrubs, resp: Response, exp: map<string, Json>) {
    var media := ContentType(resp);
    && "status" in exp && exp["status"] == Number(resp.status as real)
    && ("headers" in exp <==> media != "")
    && (media != "" ==> exp["headers"] == Obj(map["content-type" := Str(s.plain(MediaType(media)))]))
    && ("json_contains" in exp <==> resp.body.Obj?)
    && (resp.body.Obj? ==> exp["json_contains"] == Obj(Untouched(s, resp.body)))
  }

  lemma WalkOneText(s: Scrubs, key: string, text: string)
    requires PlainKey(key)
    ensures Walk(s, Obj(map[key := Str(text)])) == Obj(map[key := Str(s.plain(text))])
  {
    hide PlainKey;
    var inner := map[key := Str(text)];
    ScrubbedFields(s, inner);
    assert Walk(s, Obj(inner)).fields == map[key := Str(s.plain(text))];
  }

  lemma WalkExpected(s: Scrubs, resp: Response)
    ensures Walk(s, Obj(Expected(s, resp))).Obj?
    ensures ScrubbedExpectation(s, resp, Walk(s, Obj(Expected(s, resp))).fields)
  {
    hide PlainKey, MediaType, Untouched, WalkEntry;
    PlainStatus();
    PlainHeaders();
    PlainJsonContains();
    PlainContentType();
    ScrubbedFields(s, Expected(s, resp));
    WalkOneText(s, "content-type", MediaType(ContentType(resp)));
    if resp.body.Obj? {
      UntouchedFixed(s, resp.body);
    }
  }

  lemma BuiltExpectation(s: Scrubs, recipe: map<string, Json>, resp: Response, o: Options)
    requires BuildCase(s, recipe, resp, o).Success?
    ensures var c := BuildCase(s, recipe, resp, o).value;
      && Comparable(c)
      && ScrubbedExpectation(s, resp, c["expected"].fields)
  {
    hide PlainKey, MediaType, Untouched, Expected, Observed, MarkedRequest, Walk, WalkEntry;
    PlainExpected();
    var draft := DraftCase(s, recipe, resp, o);
    assert draft["expected"] == Obj(Expected(s, resp));
    PlainEntry(s, "expected", Obj(Expected(s, resp)));
    WalkExpected(s, resp);
  }

  lemma MediaTypeContained(contentType: string)
    ensures Contains(contentType, MediaType(contentType))
  {
    hide Contains, Trim;
    var i := IndexOf(contentType, ';');
    assert Split(contentType, ';')[0] == contentType[0..i];
    ContainsSlice(contentType, 0, i);
    TrimContained(contentType[0..i]);
    ContainsWithin(contentType, contentType[0..i], MediaType(contentType));
  }

  /** Replaying a freshly built case against the response it was built from shows drift exactly
      when the scrub rewrote the media type into something the header does not contain. */
  lemma ReplayDrift(s: Scrubs, recipe: map<string, Json>, resp: Response, o: Options)
    requires BuildCase(s, recipe, resp, o).Success?
    ensures var c, media := BuildCase(s, recipe, resp, o).value, ContentType(resp);
      && Comparable(c)
      && ((exists p :: IsProblem(c, resp, p)) <==> media != "" && !Contains(media, s.plain(MediaType(media))))
  {
    hide BuildCase, ScrubbedExpectation, Contains, MediaType;
    BuiltExpectation(s, recipe, resp, o);
    DriftOfScrubbed(s, BuildCase(s, recipe, resp, o).value, resp);
  }

  lemma DriftOfScrubbed(s: Scrubs, c: map<string, Json>, resp: Response)
    requires Comparable(c) && ScrubbedExpectation(s, resp, c["expected"].fields)
    ensures var media := ContentType(resp);
      (exists p :: IsProblem(c, resp, p)) <==> media != "" && !Contains(media, s.plain(MediaType(media)))
  {
    hide Contains, MediaType, Walk, WalkEntry, MaskLeaves, Lower;
    var media := ContentType(resp);
    LowerName("content-type");
    if media != "" && !Contains(media, s.plain(MediaType(media))) {
      assert IsProblem(c, resp, HeaderLacks("content-type"));
    }
  }

  lemma LowerName(name: string)
    requires forall c :: c in name ==> !('A' <= c <= 'Z')
    ensures Lower(name) == name
  {
    assert forall k :: 0 <= k < |name| ==> name[k] in name;
  }

  /** In particular there is no drift when the media type holds nothing to scrub. */
  lemma ReplayWithoutDrift(s: Scrubs, recipe: map<string, Json>, resp: Response, o: Options, p: Problem)
    requires BuildCase(s, recipe, resp, o).Success?
    requires s.plain(MediaType(ContentType(resp))) == MediaType(ContentType(resp))
    ensures Comparable(BuildCase(s, recipe, resp, o).value)
    ensures !IsProblem(BuildCase(s, recipe, resp, o).value, resp, p)
  {
    hide Contains, MediaType, BuildCase, IsProblem, Comparable;
    ReplayDrift(s, recipe, resp, o);
    MediaTypeContained(ContentType(resp));
  }

  /** Another pass leaves a built case as it is exactly when what went into it was settled. */
  lemma BuiltCaseScrubbedExactly(s: Scrubs, recipe: map<string, Json>, resp: Response, o: Options)
    requires BuildCase(s, recipe, resp, o).Success?
    ensures var c := BuildCase(s, recipe, resp, o).value;
      Sanitize(s, c) == c <==> Settled(s, Obj(DraftCase(s, recipe, resp, o)))
  {
    hide Walk, WalkEntry, SettledEntry, DraftCase;
    var draft := DraftCase(s, recipe, resp, o);
    forall k | k in draft
      ensures WalkEntry(s, k, WalkEntry(s, k, draft[k])) == WalkEntry(s, k, draft[k]) <==> SettledEntry(s, k, draft[k])
    {
      EntryIdempotentExactly(s, k, draft[k]);
    }
    var c := Sanitize(s, draft);
    assert forall k :: k in draft ==> Sanitize(s, c)[k] == WalkEntry(s, k, c[k]);
  }

  lemma DraftRequest(s: Scrubs, recipe: map<string, Json>, resp: Response, o: Options)
    requires "request" in recipe && recipe["request"].Obj?
    ensures var d := DraftCase(s, recipe, resp, o);
      "request" in d && d["request"] == Obj(MarkedRequest(recipe["request"].fields, GoodPassword(o.login)))
  {
    hide Expected, Observed, MarkedRequest, GoodPassword;
  }

  /** After redaction a request still tells a wrong password from the right one. */
  lemma PasswordChoiceKept(s: Scrubs, recipe: map<string, Json>, resp: Response, o: Options, key: string)
    requires BuildCase(s, recipe, resp, o).Success?
    requires "request" in recipe && "json" in recipe["request"].fields && recipe["request"].fields["json"].Obj?
    requires var payload := recipe["request"].fields["json"].fields;
      key in payload && PasswordKey(key) && payload[key].Str?
    ensures var c, given := BuildCase(s, recipe, resp, o).value, recipe["request"].fields["json"].fields[key].text;
      && "request" in c && c["request"].Obj?
      && "json" in c["request"].fields && c["request"].fields["json"].Obj?
      && key in c["request"].fields["json"].fields
      && c["request"].fields["json"].fields[key] == Str(
           if Some(given) != GoodPassword(o.login) then REDACTED_INVALID
           else if given in KEPT then given else REDACTED)
  {
    hide PlainKey, PasswordKey, CookieKey, TokenKey, SerialKey, GoodPassword, DraftCase;
    PlainRequest();
    PlainJson();
    var request := MarkedRequest(recipe["request"].fields, GoodPassword(o.login));
    DraftRequest(s, recipe, resp, o);
    PlainEntry(s, "request", Obj(request));
    PlainEntry(s, "json", request["json"]);
  }

  // ---- what the recorded pieces are ----

  /** The media type is what comes before the first semicolon, without spaces at its ends. */
  lemma MediaTypeExactly(left: string, media: string, right: string, rest: string)
    requires Blank(left) && Trimmed(media) && Blank(right)
    requires ';' !in left && ';' !in media && ';' !in right
    ensures MediaType(left + media + right) == media
    ensures MediaType(left + media + right + ";" + rest) == media
  {
    hide Split, Trim;
    var head := left + media + right;
    assert head + ";" + rest == head + [';'] + rest;
    SplitPrefix(head, ';', rest);
    TrimPadded(left, media, right);
  }

  /** The password of `user:password` is all that follows the first colon. */
  lemma GoodPasswordExactly(user: string, password: string)
    requires ':' !in user
    ensures GoodPassword(user + ":" + password) == Some(password)
    ensures GoodPassword(user) == if user == "" then None else Some("")
  {
    IndexOfFirst(user, ':', password);
    var login := user + ":" + password;
    assert login == user + [':'] + password;
    assert login[|user| + 1..] == password;
  }

  /** A response with a content type is expected to show its scrubbed media type again. */
  lemma ExpectedContentType(s: Scrubs, recipe: map<string, Json>, resp: Response, o: Options)
    requires BuildCase(s, recipe, resp, o).Success?
    ensures var c := BuildCase(s, recipe, resp, o).value;
      "expected" in c && c["expected"].Obj? &&
      if "content-type" in resp.headers && resp.headers["content-type"] != ""
      then "headers" in c["expected"].fields && c["expected"].fields["headers"]
             == Obj(map["content-type" := Str(s.plain(MediaType(resp.headers["content-type"])))])
      else "headers" !in c["expected"].fields
  {
    hide BuildCase, MediaType, Untouched;
    BuiltExpectation(s, recipe, resp, o);
  }

  /** A field is recorded as enforceable exactly when sanitizing the body leaves it unchanged. */
  lemma UntouchedExactly(s: Scrubs, body: Json, key: string)
    requires body.Obj?
    ensures key in Untouched(s, body) <==>
      key in body.fields && Walk(s, body).fields[key] == body.fields[key]
    ensures key in Untouched(s, body) ==> Untouched(s, body)[key] == body.fields[key]
  {
    hide CleanBody, WalkEntry;
    CleanBodyIsWalk(s, body);
  }

  lemma PlainProvenance()
    ensures PlainKey("source") && PlainKey("attested_by") && PlainKey("firmware") && PlainKey("captured_from")
  {
    hide PlainKey, Lacks;
    PlainSource();
    PlainAttested();
    PlainFirmware();
    PlainCapturedFrom();
  }

  lemma PlainSource()
    ensures PlainKey("source")
  {
    hide PlainKey;
    PlainByLetters("source", 'p', 'i', 'a');
  }

  lemma PlainAttested()
    ensures PlainKey("attested_by")
  {
    hide PlainKey;
    PlainByLetters("attested_by", 'p', 'i', 'h');
  }

  lemma PlainFirmware()
    ensures PlainKey("firmware")
  {
    hide PlainKey;
    PlainByLetters("firmware", 'p', 's', 'h');
  }

  lemma PlainCapturedFrom()
    ensures PlainKey("captured_from")
  {
    hide PlainKey;
    PlainByLetters("captured_from", 's', 'i', 'h');
  }

  lemma PlainObserved()
    ensures PlainKey("observed")
  {
    hide PlainKey;
    PlainByLetters("observed", 'p', 'i', 'a');
  }

  lemma ProvenanceFields(o: Options)
    ensures var d := Provenance(o);
      && "source" !in d && "observed" !in d
      && (o.source == "captured" ==>
            && "captured_from" !in d && "firmware" in d && d["firmware"] == Str(o.firmware)
            && "attested_by" in d && d["attested_by"] == Str(o.attest))
      && (o.source != "captured" ==>
            "attested_by" !in d && "captured_from" in d && d["captured_from"] == Str("openblade-emulator"))
  {
    assert "source" != "profile" && "observed" != "firmware";
  }

  lemma RecordedFields(s: Scrubs, recipe: map<string, Json>, resp: Response, o: Options)
    requires "request" in recipe ==> recipe["request"].Obj?
    ensures var d := Recorded(s, recipe, resp, o);
      && "source" in d && d["source"] == Str(o.source)
      && "observed" in d && d["observed"] == Observed(s, resp)
      && "captured_from" !in d && "attested_by" !in d
  {
    hide Expected, Observed, MarkedRequest, GoodPassword;
    assert forall k :: k in RECIPE_KEYS ==> |k| <= 10;
    assert |"request"| == 7 && |"source"| == 6 && |"observed"| == 8 && |"expected"| == 8;
    assert |"captured_from"| == 13 && |"attested_by"| == 11;
  }

  lemma DraftProvenance(s: Scrubs, recipe: map<string, Json>, resp: Response, o: Options)
    requires "request" in recipe ==> recipe["request"].Obj?
    ensures var d := DraftCase(s, recipe, resp, o);
      && "source" in d && d["source"] == Str(o.source)
      && "observed" in d && d["observed"] == Observed(s, resp)
      && (o.source == "captured" ==>
            && "captured_from" !in d && "firmware" in d && d["firmware"] == Str(o.firmware)
            && "attested_by" in d && d["attested_by"] == Str(o.attest))
      && (o.source != "captured" ==>
            "attested_by" !in d && "captured_from" in d && d["captured_from"] == Str("openblade-emulator"))
  {
    hide Expected, Observed, MarkedRequest, GoodPassword, Provenance, Recorded;
    ProvenanceFields(o);
    RecordedFields(s, recipe, resp, o);
  }

  lemma PlainText(s: Scrubs, key: string, text: string)
    requires PlainKey(key)
    ensures WalkEntry(s, key, Str(text)) == Str(s.plain(text))
  {
    hide PlainKey;
    PlainEntry(s, key, Str(text));
  }

  /** A case that claims to be captured names its firmware and who attests it; any other built case
      says that it comes from the emulator and names no one. */
  lemma ProvenanceKept(s: Scrubs, recipe: map<string, Json>, resp: Response, o: Options)
    requires BuildCase(s, recipe, resp, o).Success?
    ensures var c := BuildCase(s, recipe, resp, o).value;
      && "source" in c && c["source"] == Str(s.plain(o.source))
      && (o.source == "captured" ==>
            && o.firmware != "" && o.attest != "" && "captured_from" !in c
            && "firmware" in c && c["firmware"] == Str(s.plain(o.firmware))
            && "attested_by" in c && c["attested_by"] == Str(s.plain(o.attest)))
      && (o.source != "captured" ==>
            && o.source == "self-captured" && "attested_by" !in c
            && "captured_from" in c && c["captured_from"] == Str(s.plain("openblade-emulator")))
  {
    hide PlainKey, DraftCase, WalkEntry, Walk;
    DraftProvenance(s, recipe, resp, o);
    PlainProvenance();
    PlainText(s, "source", o.source);
    PlainText(s, "firmware", o.firmware);
    PlainText(s, "attested_by", o.attest);
    PlainText(s, "captured_from", "openblade-emulator");
  }

  /** The observed response is kept in full, date aside: every other header and the whole shape of
      the body are in the case. */
  lemma ObservedKept(s: Scrubs, recipe: map<string, Json>, resp: Response, o: Options)
    requires BuildCase(s, recipe, resp, o).Success?
    ensures var c := BuildCase(s, recipe, resp, o).value;
      && "observed" in c && c["observed"].Obj? && c["observed"].fields.Keys == {"headers", "body"}
      && c["observed"].fields["headers"].Obj?
      && c["observed"].fields["headers"].fields.Keys == resp.headers.Keys - {"date"}
  {
    hide PlainKey, DraftCase, WalkEntry, Walk, Observed;
    DraftProvenance(s, recipe, resp, o);
    PlainObserved();
    PlainEntry(s, "observed", Observed(s, resp));
    ObservedShape(s, resp);
  }

  lemma ObservedShape(s: Scrubs, resp: Response)
    ensures var kept := Walk(s, Observed(s, resp));
      && kept.Obj? && kept.fields.Keys == {"headers", "body"}
      && kept.fields["headers"].Obj? && kept.fields["headers"].fields.Keys == resp.headers.Keys - {"date"}
      && SameShape(CleanBody(s, resp.body), kept.fields["body"])
  {
    hide CleanBody, Walk;
    var observed := Observed(s, resp);
    WalkShape(s, observed);
    var kept := Walk(s, observed);
    assert SameShape(observed.fields["headers"], kept.fields["headers"]);
    assert SameShape(observed.fields["body"], kept.fields["body"]);
  }
}
