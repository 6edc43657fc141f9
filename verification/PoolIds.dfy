/** Normalization of media pool ids (openblade/api/aml_state.py): lower case, every run of other
    characters becomes one hyphen, and hyphens at the ends are dropped. */
module PoolIds {
  import opened Text

  predicate Alnum(c: char) {
    'a' <= c <= 'z' || '0' <= c <= '9'
  }

  /** `re.sub("[^a-z0-9]+", "-", s)` */
  function Hyphenate(s: string): string
    decreases |s|
  {
    if s == [] then []
    else if Alnum(s[0]) then [s[0]] + Hyphenate(s[1..])
    else ['-'] + Hyphenate(SkipOthers(s[1..]))
  }

  function SkipOthers(s: string): (r: string)
    ensures |r| <= |s|
  {
    if s != [] && !Alnum(s[0]) then SkipOthers(s[1..]) else s
  }

  function DropFront(s: string): string {
    if s != [] && s[0] == '-' then DropFront(s[1..]) else s
  }

  function DropBack(s: string): string {
    if s != [] && s[|s| - 1] == '-' then DropBack(s[..|s| - 1]) else s
  }

  /** The normalized id, or nothing when no letter or digit is left. */
  function Slug(value: string): string {
    DropBack(DropFront(Hyphenate(Lower(Trim(value)))))
  }

  /** Letters, digits and hyphens, and no two hyphens in a row. */
  predicate Hyphenated(s: string) {
    && (forall k :: 0 <= k < |s| ==> Alnum(s[k]) || s[k] == '-')
    && (forall k :: 0 < k < |s| && s[k] == '-' ==> s[k - 1] != '-')
  }

  /** A normalized id: hyphenated, not empty, with a letter or digit at both ends. */
  predicate IsSlug(s: string) {
    Hyphenated(s) && s != [] && s[0] != '-' && s[|s| - 1] != '-'
  }

  lemma {:induction false} SkipOthersHead(s: string)
    ensures SkipOthers(s) != [] ==> Alnum(SkipOthers(s)[0])
  {
    if s != [] && !Alnum(s[0]) {
      SkipOthersHead(s[1..]);
    }
  }

  lemma {:induction false} HyphenateShape(s: string)
    ensures Hyphenated(Hyphenate(s))
    ensures s != [] && Alnum(s[0]) ==> Hyphenate(s)[0] == s[0]
    decreases |s|
  {
    if s != [] {
      if Alnum(s[0]) {
        HyphenateShape(s[1..]);
      } else {
        SkipOthersHead(s[1..]);
        HyphenateShape(SkipOthers(s[1..]));
      }
    }
  }

  lemma {:induction false} DropFrontShape(s: string)
    requires Hyphenated(s)
    ensures Hyphenated(DropFront(s)) && (DropFront(s) != [] ==> DropFront(s)[0] != '-')
  {
    if s != [] && s[0] == '-' {
      DropFrontShape(s[1..]);
    }
  }

  lemma {:induction false} DropBackShape(s: string)
    requires Hyphenated(s) && (s != [] ==> s[0] != '-')
    ensures DropBack(s) == [] || IsSlug(DropBack(s))
  {
    if s != [] && s[|s| - 1] == '-' {
      DropBackShape(s[..|s| - 1]);
    }
  }

  /** Normalizing gives a normalized id or nothing. */
  lemma SlugShape(value: string)
    ensures Slug(value) == [] || IsSlug(Slug(value))
  {
    hide IsSlug, Hyphenated;
    HyphenateShape(Lower(Trim(value)));
    DropFrontShape(Hyphenate(Lower(Trim(value))));
    DropBackShape(DropFront(Hyphenate(Lower(Trim(value)))));
  }

  lemma {:induction false} HyphenateFixed(s: string)
    requires Hyphenated(s) && (s != [] ==> s[|s| - 1] != '-')
    ensures Hyphenate(s) == s
  {
    if s != [] {
      HyphenateFixed(s[1..]);
      if s[0] == '-' {
        assert s[1] != '-';
        assert SkipOthers(s[1..]) == s[1..];
      }
    }
  }

  lemma LowerFixed(s: string)
    requires forall k :: 0 <= k < |s| ==> Alnum(s[k]) || s[k] == '-'
    ensures Lower(s) == s
  {
  }

  /** A normalized id is its own normal form. */
  lemma SlugFixed(value: string)
    requires IsSlug(value)
    ensures Slug(value) == value
  {
    assert Trim(value) == value;
    LowerFixed(value);
    HyphenateFixed(value);
  }

  /** `_normalize_aml_media_pool_id`, with the generated id it falls back to. */
  function Normalize(value: string, generated: string): string {
    if Slug(value) != [] then Slug(value) else generated
  }

  lemma NormalizeFixed(value: string, generated: string, other: string)
    requires IsSlug(generated)
    ensures IsSlug(Normalize(value, generated))
    ensures Normalize(Normalize(value, generated), other) == Normalize(value, generated)
  {
    hide IsSlug, Slug;
    SlugShape(value);
    SlugNotEmpty(Normalize(value, generated));
    SlugFixed(Normalize(value, generated));
  }

  lemma SlugNotEmpty(s: string)
    requires IsSlug(s)
    ensures s != []
  {
  }

  // ---- the normal form of words ----

  /** A word: small letters, capitals and digits, at least one. */
  predicate IsWord(w: string) {
    w != [] && forall k :: 0 <= k < |w| ==> Alnum(LowerChar(w[k]))
  }

  /** Separators: no letter, small or capital, and no digit. */
  predicate IsGap(g: string) {
    forall k :: 0 <= k < |g| ==> !Alnum(LowerChar(g[k]))
  }

  /** `value` is the words, with at least one separator between any two and any at the ends. */
  predicate Spaced(words: seq<string>, gaps: seq<string>) {
    && |gaps| == |words| + 1
    && (forall i :: 0 <= i < |words| ==> IsWord(words[i]))
    && (forall i :: 0 <= i < |gaps| ==> IsGap(gaps[i]))
    && (forall i :: 0 < i < |words| ==> gaps[i] != [])
  }

  function Laid(words: seq<string>, gaps: seq<string>): string
    requires |gaps| == |words| + 1
  {
    if words == [] then gaps[0] else gaps[0] + words[0] + Laid(words[1..], gaps[1..])
  }

  lemma LowerConcat(a: string, b: string)
    ensures Lower(a + b) == Lower(a) + Lower(b)
  {
  }

  predicate AllAlnum(w: string) {
    forall k :: 0 <= k < |w| ==> Alnum(w[k])
  }

  predicate NoAlnum(g: string) {
    forall k :: 0 <= k < |g| ==> !Alnum(g[k])
  }

  lemma {:induction false} HyphenateWord(w: string, rest: string)
    requires AllAlnum(w)
    ensures Hyphenate(w + rest) == w + Hyphenate(rest)
  {
    if w == [] {
      assert w + rest == rest;
    } else {
      HyphenateWord(w[1..], rest);
      assert (w + rest)[1..] == w[1..] + rest;
    }
  }

  lemma {:induction false} SkipGap(g: string, rest: string)
    requires NoAlnum(g) && (rest != [] ==> Alnum(rest[0]))
    ensures SkipOthers(g + rest) == rest
  {
    if g == [] {
      assert g + rest == rest;
    } else {
      SkipGap(g[1..], rest);
      assert (g + rest)[1..] == g[1..] + rest;
    }
  }

  lemma HyphenateOther(c: char, t: string)
    requires !Alnum(c)
    ensures Hyphenate([c] + t) == "-" + Hyphenate(SkipOthers(t))
  {
    hide Alnum, SkipOthers;
    assert ([c] + t)[1..] == t;
  }

  lemma HyphenateGap(g: string, rest: string)
    requires g != [] && NoAlnum(g) && (rest != [] ==> Alnum(rest[0]))
    ensures Hyphenate(g + rest) == "-" + Hyphenate(rest)
  {
    hide Alnum, SkipOthers, Hyphenate;
    SkipGap(g[1..], rest);
    assert g + rest == [g[0]] + (g[1..] + rest);
    HyphenateOther(g[0], g[1..] + rest);
  }

  function Dash(g: string): string {
    if g == [] then "" else "-"
  }

  lemma WordLowered(w: string)
    requires IsWord(w)
    ensures AllAlnum(Lower(w)) && Lower(w) != []
  {
  }

  lemma GapLowered(g: string)
    requires IsGap(g)
    ensures NoAlnum(Lower(g)) && (Lower(g) == [] <==> g == [])
  {
  }

  lemma {:induction false} HyphenateLaid(words: seq<string>, gaps: seq<string>)
    requires Spaced(words, gaps)
    ensures Hyphenate(Lower(Laid(words, gaps))) == Dash(gaps[0])
      + if words == [] then "" else Lower(Join(words, '-')) + Dash(gaps[|words|])
  {
    hide Hyphenate, Lower, LowerChar, Alnum, IsWord, IsGap, Join;
    var g := gaps[0];
    GapLowered(g);
    if words == [] {
      LaidNothing(words, gaps);
      HyphenateLead(g, "");
      assert Lower(g) + "" == Lower(g);
      assert Hyphenate("") == "" by { HyphenateNothing(); }
      assert Dash(g) + "" == Dash(g);
    } else {
      var w, rest := words[0], Lower(Laid(words[1..], gaps[1..]));
      WordLowered(w);
      HyphenateLaid(words[1..], gaps[1..]);
      LaidStep(words, gaps);
      HyphenateLead(g, Lower(w) + rest);
      HyphenateWord(Lower(w), rest);
      JoinedLower(words);
      if |words| > 1 {
        var tail := Lower(Join(words[1..], '-')) + Dash(gaps[|words|]);
        assert Hyphenate(rest) == "-" + tail;
        assert Lower(w) + ("-" + tail) == (Lower(w) + "-" + Lower(Join(words[1..], '-'))) + Dash(gaps[|words|]);
      }
    }
  }

  lemma HyphenateNothing()
    ensures Hyphenate("") == ""
  {
  }

  lemma LaidNothing(words: seq<string>, gaps: seq<string>)
    requires words == [] && |gaps| == 1
    ensures Laid(words, gaps) == gaps[0]
  {
  }

  lemma LaidCons(words: seq<string>, gaps: seq<string>)
    requires words != [] && |gaps| == |words| + 1
    ensures Laid(words, gaps) == gaps[0] + words[0] + Laid(words[1..], gaps[1..])
  {
  }

  lemma Associates(a: string, b: string, c: string)
    ensures (a + b) + c == a + (b + c)
  {
  }

  lemma LaidStep(words: seq<string>, gaps: seq<string>)
    requires words != [] && |gaps| == |words| + 1
    ensures Lower(Laid(words, gaps)) == Lower(gaps[0]) + (Lower(words[0]) + Lower(Laid(words[1..], gaps[1..])))
  {
    hide *;
    LaidCons(words, gaps);
    LowerConcat(gaps[0] + words[0], Laid(words[1..], gaps[1..]));
    LowerConcat(gaps[0], words[0]);
    Associates(Lower(gaps[0]), Lower(words[0]), Lower(Laid(words[1..], gaps[1..])));
  }

  lemma HyphenateLead(g: string, rest: string)
    requires NoAlnum(Lower(g)) && (rest != [] ==> Alnum(rest[0])) && (Lower(g) == [] <==> g == [])
    ensures Hyphenate(Lower(g) + rest) == Dash(g) + Hyphenate(rest)
  {
    if g == [] {
      assert Lower(g) + rest == rest;
    } else {
      HyphenateGap(Lower(g), rest);
    }
  }

  lemma LowerDash()
    ensures Lower(['-']) == "-"
  {
  }

  lemma JoinedLower(words: seq<string>)
    requires words != []
    ensures Lower(Join(words, '-')) ==
      if |words| == 1 then Lower(words[0]) else Lower(words[0]) + "-" + Lower(Join(words[1..], '-'))
  {
    if |words| > 1 {
      hide *;
      JoinCons(words[0], words[1..], '-');
      assert words == [words[0]] + words[1..];
      LowerConcat(words[0] + ['-'], Join(words[1..], '-'));
      LowerConcat(words[0], ['-']);
      LowerDash();
    }
  }

  lemma SlugSteps(value: string)
    requires Trimmed(value)
    ensures Slug(value) == DropBack(DropFront(Hyphenate(Lower(value))))
  {
  }

  lemma DropLoneDash(g: string)
    ensures DropBack(DropFront(Dash(g))) == ""
  {
  }

  lemma SpacedWords(words: seq<string>, gaps: seq<string>)
    requires Spaced(words, gaps)
    ensures forall i :: 0 <= i < |words| ==> IsWord(words[i])
  {
  }

  /** A value made of words and separators normalizes to its words, in lower case, with one hyphen
      between two. */
  lemma SlugOfWords(words: seq<string>, gaps: seq<string>)
    requires |gaps| == |words| + 1 && Spaced(words, gaps) && Trimmed(Laid(words, gaps))
    ensures Slug(Laid(words, gaps)) == if words == [] then "" else Lower(Join(words, '-'))
  {
    hide *;
    SlugSteps(Laid(words, gaps));
    HyphenateLaid(words, gaps);
    if words != [] {
      SpacedWords(words, gaps);
      CoreEnds(words);
      DropDashes(gaps[0], Lower(Join(words, '-')), gaps[|words|]);
    } else {
      DropLoneDash(gaps[0]);
      assert Dash(gaps[0]) + "" == Dash(gaps[0]);
    }
  }

  lemma {:induction false} CoreEnds(words: seq<string>)
    requires words != [] && forall i :: 0 <= i < |words| ==> IsWord(words[i])
    ensures var core := Lower(Join(words, '-'));
      core != [] && core[0] != '-' && core[|core| - 1] != '-'
  {
    hide Lower, Join;
    JoinedLower(words);
    WordEnds(words[0]);
    if |words| > 1 {
      CoreEnds(words[1..]);
    }
  }

  lemma WordEnds(w: string)
    requires IsWord(w)
    ensures var v := Lower(w); v != [] && v[0] != '-' && v[|v| - 1] != '-'
  {
  }

  lemma DropFrontDash(s: string)
    requires s != [] && s[0] != '-'
    ensures DropFront("-" + s) == s && DropFront(s) == s
  {
    assert ("-" + s)[1..] == s;
  }

  lemma DropBackDash(s: string)
    requires s != [] && s[|s| - 1] != '-'
    ensures DropBack(s + "-") == s && DropBack(s) == s
  {
    assert (s + "-")[..|s|] == s;
  }

  lemma DropDashes(g: string, core: string, h: string)
    requires core != [] && core[0] != '-' && core[|core| - 1] != '-'
    ensures DropBack(DropFront(Dash(g) + (core + Dash(h)))) == core
  {
    hide DropFront, DropBack;
    var s := core + Dash(h);
    DropFrontDash(s);
    DropBackDash(core);
    assert Dash(g) == "" ==> Dash(g) + s == s;
    assert h == [] ==> s == core;
  }

  /** Spaces around a value make no difference. */
  lemma SlugIgnoresSpace(left: string, value: string, right: string)
    requires Blank(left) && Trimmed(value) && Blank(right)
    ensures Slug(left + value + right) == Slug(value)
  {
    hide Trim, Trimmed;
    TrimPadded(left, value, right);
    assert Trim(value) == value;
  }
}
