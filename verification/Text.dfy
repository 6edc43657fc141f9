/** The string operations the modelled code leans on, with the laws its callers use:
    `str.split`/`str.join` on one separator, `str.strip`, and substring tests. */
module Text {

  /** The characters `str.strip()` removes: those for which Python's `isspace` holds. */
  predicate IsSpace(c: char) {
    || '\t' <= c <= '\r'
    || '\U{1C}' <= c <= ' '
    || c == '\U{85}' || c == '\U{A0}' || c == '\U{1680}'
    || '\U{2000}' <= c <= '\U{200A}'
    || c == '\U{2028}' || c == '\U{2029}' || c == '\U{202F}' || c == '\U{205F}' || c == '\U{3000}'
  }

  /** By their codes: nine in the first 32, blank, next line, no-break space, and Unicode's others. */
  lemma SpacesExactly(c: char)
    ensures IsSpace(c) <==>
      || c as int in {9, 10, 11, 12, 13, 28, 29, 30, 31, 32, 133, 160, 5760}
      || 8192 <= c as int <= 8202
      || c as int in {8232, 8233, 8239, 8287, 12288}
  {
  }

  // ---- strip ----

  predicate Trimmed(s: string) {
    s != [] ==> !IsSpace(s[0]) && !IsSpace(s[|s| - 1])
  }

  function TrimLeft(s: string): string {
    if s != [] && IsSpace(s[0]) then TrimLeft(s[1..]) else s
  }

  function TrimRight(s: string): string {
    if s != [] && IsSpace(s[|s| - 1]) then TrimRight(s[..|s| - 1]) else s
  }

  /** `s.strip()`: the result is trimmed, and a trimmed string is left alone. */
  function Trim(s: string): (r: string)
    ensures Trimmed(r)
    ensures Trimmed(s) ==> r == s
  {
    StripFacts(s);
    TrimRight(TrimLeft(s))
  }

  predicate Blank(s: string) {
    forall k :: 0 <= k < |s| ==> IsSpace(s[k])
  }

  lemma {:induction false} LeftParts(s: string) returns (i: nat)
    ensures i <= |s| && TrimLeft(s) == s[i..] && (i < |s| ==> !IsSpace(s[i]))
    ensures Blank(s[..i])
  {
    hide IsSpace;
    if s != [] && IsSpace(s[0]) {
      i := LeftParts(s[1..]);
      assert s[1..][i..] == s[i + 1..] && s[..i + 1] == [s[0]] + s[1..][..i];
      i := i + 1;
    } else {
      i := 0;
    }
  }

  lemma {:induction false} RightParts(s: string) returns (j: nat)
    ensures j <= |s| && TrimRight(s) == s[..j] && (j > 0 ==> !IsSpace(s[j - 1]))
    ensures Blank(s[j..])
  {
    hide IsSpace;
    j := |s|;
    if s != [] && IsSpace(s[|s| - 1]) {
      j := RightParts(s[..|s| - 1]);
      assert s[..|s| - 1][..j] == s[..j];
      assert s[j..] == s[..|s| - 1][j..] + [s[|s| - 1]];
    }
  }

  lemma StripFacts(s: string)
    ensures Trimmed(TrimRight(TrimLeft(s)))
    ensures Trimmed(s) ==> TrimRight(TrimLeft(s)) == s
  {
    hide IsSpace, TrimLeft, TrimRight, Blank;
    var i := LeftParts(s);
    var j := RightParts(TrimLeft(s));
    if Trimmed(s) {
      if i > 0 {
        SpaceFirst(s, i);
      }
      if j < |s| - i {
        SpaceLast(TrimLeft(s), j);
      }
    }
  }

  lemma SpaceFirst(s: string, i: nat)
    requires 0 < i <= |s| && Blank(s[..i])
    ensures IsSpace(s[0])
  {
    hide IsSpace;
    assert s[..i][0] == s[0];
  }

  lemma SpaceLast(s: string, j: nat)
    requires j < |s| && Blank(s[j..])
    ensures IsSpace(s[|s| - 1])
  {
    hide IsSpace;
    assert s[j..][|s| - j - 1] == s[|s| - 1];
  }

  /** Stripping takes spaces off the two ends and nothing else. */
  lemma TrimParts(s: string) returns (i: nat, j: nat)
    ensures i <= j <= |s| && Trim(s) == s[i..j] && Blank(s[..i]) && Blank(s[j..])
  {
    hide IsSpace, TrimLeft, TrimRight, Blank;
    i := LeftParts(s);
    var n := RightParts(TrimLeft(s));
    j := i + n;
    SliceTwice(s, i, n);
  }

  lemma SliceTwice(s: string, i: nat, n: nat)
    requires i + n <= |s|
    ensures s[i..][..n] == s[i..i + n] && s[i..][n..] == s[i + n..]
  {
  }

  lemma TrimLeftSpace(c: char, t: string)
    requires IsSpace(c)
    ensures TrimLeft([c] + t) == TrimLeft(t)
  {
    hide IsSpace;
    assert ([c] + t)[1..] == t;
  }

  lemma TrimRightSpace(t: string, c: char)
    requires IsSpace(c)
    ensures TrimRight(t + [c]) == TrimRight(t)
  {
    hide IsSpace;
    assert (t + [c])[..|t|] == t;
  }

  lemma {:induction false} LeftOnly(left: string, t: string)
    requires Blank(left)
    ensures TrimLeft(left + t) == TrimLeft(t)
  {
    hide IsSpace, TrimLeft;
    if left == [] {
      assert left + t == t;
    } else {
      LeftOnly(left[1..], t);
      assert left + t == [left[0]] + (left[1..] + t);
      TrimLeftSpace(left[0], left[1..] + t);
    }
  }

  lemma {:induction false} RightOnly(t: string, right: string)
    requires Blank(right)
    ensures TrimRight(t + right) == TrimRight(t)
  {
    hide IsSpace, TrimRight;
    if right == [] {
      assert t + right == t;
    } else {
      var n := |right| - 1;
      RightOnly(t, right[..n]);
      assert t + right == (t + right[..n]) + [right[n]];
      TrimRightSpace(t + right[..n], right[n]);
    }
  }

  /** A trimmed text is got back from any spaces around it. */
  lemma TrimPadded(left: string, s: string, right: string)
    requires Blank(left) && Trimmed(s) && Blank(right)
    ensures Trim(left + s + right) == s
  {
    hide IsSpace, TrimLeft, TrimRight, Blank;
    assert left + s + right == left + (s + right);
    LeftOnly(left, s + right);
    if s == [] {
      assert s + right == right == right + s;
      LeftOnly(right, s);
      NothingLeft();
    } else {
      StartsSolid(s + right);
      RightOnly(s, right);
      EndsSolid(s);
    }
  }

  lemma NothingLeft()
    ensures TrimLeft([]) == [] && TrimRight([]) == []
  {
  }

  lemma StartsSolid(s: string)
    requires s != [] && !IsSpace(s[0])
    ensures TrimLeft(s) == s
  {
  }

  lemma EndsSolid(s: string)
    requires s != [] && !IsSpace(s[|s| - 1])
    ensures TrimRight(s) == s
  {
  }

  // ---- substrings ----

  predicate StartsWith(s: string, prefix: string) {
    prefix <= s
  }

  /** `part in s`, scanning from the left. */
  predicate Contains(s: string, part: string) {
    part <= s || (s != [] && Contains(s[1..], part))
  }

  lemma {:induction false} ContainsSlice(s: string, i: nat, j: nat)
    requires i <= j <= |s|
    ensures Contains(s, s[i..j])
  {
    if i != 0 {
      assert s[1..][i - 1..j - 1] == s[i..j];
      ContainsSlice(s[1..], i - 1, j - 1);
    }
  }

  /** Stripping keeps a contiguous part of the string. */
  lemma TrimContained(s: string)
    ensures Contains(s, Trim(s))
  {
    hide *;
    var i, j := TrimParts(s);
    ContainsSlice(s, i, j);
  }

  lemma {:induction false} ContainsWithin(s: string, mid: string, part: string)
    requires Contains(s, mid) && Contains(mid, part)
    ensures Contains(s, part)
  {
    if mid <= s {
      if part <= mid {
      } else {
        assert mid[1..] <= s[1..];
        ContainsWithin(s[1..], mid[1..], part);
      }
    } else {
      ContainsWithin(s[1..], mid, part);
    }
  }

  // ---- split and join ----

  /** The position of the first `sep`, or the length when there is none. */
  function IndexOf(s: string, sep: char): (i: nat)
    ensures i <= |s|
    ensures sep !in s[..i]
    ensures i < |s| ==> s[i] == sep
    ensures i == |s| <==> sep !in s
  {
    if s == [] then 0
    else if s[0] == sep then 0
    else
      var i := 1 + IndexOf(s[1..], sep);
      assert s[..i] == [s[0]] + s[1..][..i - 1];
      assert s == [s[0]] + s[1..];
      i
  }

  lemma {:induction false} IndexOfFirst(head: string, sep: char, tail: string)
    requires sep !in head
    ensures IndexOf(head + [sep] + tail, sep) == |head|
  {
    if head != [] {
      assert (head + [sep] + tail)[1..] == head[1..] + [sep] + tail;
      IndexOfFirst(head[1..], sep, tail);
    }
  }

  /** `s.split(sep)` */
  function Split(s: string, sep: char): (parts: seq<string>)
    ensures |parts| > 0
    decreases |s|
  {
    var i := IndexOf(s, sep);
    if i == |s| then [s] else [s[..i]] + Split(s[i + 1..], sep)
  }

  function Join(parts: seq<string>, sep: char): string
    requires |parts| > 0
  {
    if |parts| == 1 then parts[0] else parts[0] + [sep] + Join(parts[1..], sep)
  }

  lemma SplitStep(s: string, sep: char)
    ensures var i := IndexOf(s, sep);
      Split(s, sep) == if i == |s| then [s] else [s[..i]] + Split(s[i + 1..], sep)
  {
    hide IndexOf;
  }

  lemma JoinCons(head: string, rest: seq<string>, sep: char)
    requires |rest| > 0
    ensures Join([head] + rest, sep) == head + [sep] + Join(rest, sep)
  {
    assert ([head] + rest)[1..] == rest;
  }

  /** The parts hold no separator, and joining them gives the text back. */
  lemma {:induction false} JoinSplit(s: string, sep: char)
    ensures forall k :: 0 <= k < |Split(s, sep)| ==> sep !in Split(s, sep)[k]
    ensures Join(Split(s, sep), sep) == s
    decreases |s|
  {
    hide Split, Join, IndexOf;
    var i := IndexOf(s, sep);
    SplitStep(s, sep);
    if i < |s| {
      JoinSplit(s[i + 1..], sep);
      JoinCons(s[..i], Split(s[i + 1..], sep), sep);
      assert s == s[..i] + [sep] + s[i + 1..];
    } else {
      JoinOne(s, sep);
      assert s[..i] == s;
    }
  }

  lemma JoinOne(part: string, sep: char)
    ensures Join([part], sep) == part
  {
  }

  lemma {:induction false} SplitPrefix(head: string, sep: char, tail: string)
    requires sep !in head
    ensures Split(head, sep) == [head]
    ensures Split(head + [sep] + tail, sep) == [head] + Split(tail, sep)
  {
    var s := head + [sep] + tail;
    IndexOfFirst(head, sep, tail);
    var i := IndexOf(s, sep);
    assert s[..i] == head && s[i + 1..] == tail;
  }

  /** Joining separator-free parts and splitting again returns the parts. */
  lemma {:induction false} SplitJoin(parts: seq<string>, sep: char)
    requires |parts| > 0
    requires forall k :: 0 <= k < |parts| ==> sep !in parts[k]
    ensures Split(Join(parts, sep), sep) == parts
  {
    if |parts| == 1 {
      SplitPrefix(parts[0], sep, []);
    } else {
      SplitJoin(parts[1..], sep);
      SplitPrefix(parts[0], sep, Join(parts[1..], sep));
    }
  }

  lemma {:induction false} JoinConcat(p: seq<string>, sep: char, q: seq<string>)
    requires |p| > 0 && |q| > 0
    ensures Join(p + q, sep) == Join(p, sep) + [sep] + Join(q, sep)
  {
    if |p| == 1 {
      assert (p + q)[1..] == q;
    } else {
      JoinConcat(p[1..], sep, q);
      assert (p + q)[1..] == p[1..] + q;
      assert Join(p + q, sep) == p[0] + [sep] + (Join(p[1..], sep) + [sep] + Join(q, sep));
    }
  }

  /** A separator between two texts separates their parts. */
  lemma SplitConcat(s: string, sep: char, t: string)
    ensures Split(s + [sep] + t, sep) == Split(s, sep) + Split(t, sep)
  {
    var p, q := Split(s, sep), Split(t, sep);
    JoinSplit(s, sep);
    JoinSplit(t, sep);
    JoinConcat(p, sep, q);
    SplitJoin(p + q, sep);
  }

  /** Separator-free text extends the last part. */
  lemma SplitExtend(s: string, sep: char, t: string)
    requires sep !in t
    ensures var parts := Split(s, sep); var n := |parts| - 1;
      Split(s + t, sep) == parts[..n] + [parts[n] + t]
  {
    var parts := Split(s, sep);
    var n := |parts| - 1;
    JoinSplit(s, sep);
    JoinExtend(parts, sep, t);
    SplitJoin(parts[..n] + [parts[n] + t], sep);
  }

  lemma {:induction false} JoinExtend(parts: seq<string>, sep: char, t: string)
    requires |parts| > 0
    ensures var n := |parts| - 1;
      Join(parts[..n] + [parts[n] + t], sep) == Join(parts, sep) + t
  {
    var n := |parts| - 1;
    var longer := parts[..n] + [parts[n] + t];
    if n > 0 {
      JoinExtend(parts[1..], sep, t);
      assert longer[1..] == parts[1..][..n - 1] + [parts[1..][n - 1] + t];
    }
  }

  // ---- case ----

  /** `str.lower` and `str.upper` on ASCII letters; other characters are unchanged. */
  function LowerChar(c: char): char {
    if 'A' <= c <= 'Z' then c - 'A' + 'a' else c
  }

  function UpperChar(c: char): char {
    if 'a' <= c <= 'z' then c - 'a' + 'A' else c
  }

  function Lower(s: string): (r: string)
    ensures |r| == |s|
    ensures forall k :: 0 <= k < |s| ==> r[k] == LowerChar(s[k])
  {
    if s == [] then [] else [LowerChar(s[0])] + Lower(s[1..])
  }

  function Upper(s: string): (r: string)
    ensures |r| == |s|
    ensures forall k :: 0 <= k < |s| ==> r[k] == UpperChar(s[k])
  {
    if s == [] then [] else [UpperChar(s[0])] + Upper(s[1..])
  }

  /** Between the codes of the small letters, 97 to 122, and of the capitals, 65 to 90, case goes
      back and forth; no other character changes. */
  lemma CaseMaps(k: nat, c: char)
    requires k < 26
    ensures UpperChar((97 + k) as char) == (65 + k) as char && LowerChar((65 + k) as char) == (97 + k) as char
    ensures !(97 <= c as int <= 122) ==> UpperChar(c) == c
    ensures !(65 <= c as int <= 90) ==> LowerChar(c) == c
  {
  }
}
