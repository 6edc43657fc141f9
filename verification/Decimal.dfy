/** Decimal rendering of non-negative integers and Python's `int(text)` on trimmed text. */
module Decimal {
  import opened Wrappers

  predicate IsDigit(c: char) { '0' <= c <= '9' }

  function DigitValue(c: char): nat
    requires IsDigit(c)
  {
    (c - '0') as int
  }

  function DigitChar(d: nat): char
    requires d < 10
  {
    '0' + d as char
  }

  /** `str(n)` for n >= 0: digits only, and no leading zero unless n is zero. */
  function Render(n: nat): (s: string)
    ensures |s| > 0
    ensures forall k :: 0 <= k < |s| ==> IsDigit(s[k])
    ensures |s| > 1 ==> s[0] != '0'
    ensures n > 0 ==> s[0] != '0'
  {
    if n < 10 then [DigitChar(n)] else Render(n / 10) + [DigitChar(n % 10)]
  }

  /** The value of a run of digits in which single underscores may separate digits,
      or None when the text is not such a run. */
  function ParseDigits(s: string): Option<nat> {
    if s == [] || !IsDigit(s[|s| - 1]) then None
    else
      var last := DigitValue(s[|s| - 1]);
      if |s| == 1 then Some(last)
      else
        var head := if s[|s| - 2] == '_' then s[..|s| - 2] else s[..|s| - 1];
        match ParseDigits(head)
        case None => None
        case Some(v) => Some(10 * v + last)
  }

  /** `int(text)`: an optional sign and then digits. */
  function ParseInt(s: string): Option<int> {
    if s != [] && (s[0] == '+' || s[0] == '-') then
      match ParseDigits(s[1..])
      case None => None
      case Some(v) =>
        var value: int := if s[0] == '-' then -(v as int) else v as int;
        Some(value)
    else
      match ParseDigits(s)
      case None => None
      case Some(v) => Some(v)
  }

  lemma {:induction false} ParseDigitsRender(n: nat)
    ensures ParseDigits(Render(n)) == Some(n)
  {
    var s := Render(n);
    if n >= 10 {
      ParseDigitsRender(n / 10);
      assert s[..|s| - 1] == Render(n / 10);
      assert IsDigit(s[|s| - 2]);
    }
  }

  /** Reading back a rendered number gives the number, with or without a plus sign. */
  lemma ParseIntRender(n: nat)
    ensures ParseInt(Render(n)) == Some(n)
  {
    ParseDigitsRender(n);
    assert IsDigit(Render(n)[0]);
  }

  /** Different numbers have different renderings. */
  lemma RenderInjective(m: nat, n: nat)
    requires Render(m) == Render(n)
    ensures m == n
  {
    ParseIntRender(m);
    ParseIntRender(n);
  }

  /** A sign before a rendered number. */
  lemma ParseIntSigned(n: nat)
    ensures ParseInt("-" + Render(n)).Some? && ParseInt("-" + Render(n)).value + n == 0
    ensures ParseInt("+" + Render(n)).Some? && ParseInt("+" + Render(n)).value == n
  {
    hide Render;
    ParseDigitsRender(n);
    assert ("-" + Render(n))[1..] == Render(n) && ("+" + Render(n))[1..] == Render(n);
  }

  lemma {:induction false} ParseDigitsChars(s: string, k: nat)
    requires ParseDigits(s).Some? && k < |s|
    ensures IsDigit(s[k]) || s[k] == '_'
    ensures IsDigit(s[0]) && IsDigit(s[|s| - 1])
  {
    if |s| > 1 {
      var head := if s[|s| - 2] == '_' then s[..|s| - 2] else s[..|s| - 1];
      if k < |head| {
        ParseDigitsChars(head, k);
      } else {
        ParseDigitsChars(head, 0);
      }
    }
  }

  /** Whatever is read as a number consists of digits and underscores after an optional sign, and has
      a digit at both ends. */
  lemma ParseIntChars(s: string, k: nat)
    requires ParseInt(s).Some? && k < |s|
    ensures IsDigit(s[k]) || s[k] == '_' || (k == 0 && (s[0] == '+' || s[0] == '-'))
    ensures IsDigit(s[|s| - 1])
  {
    hide ParseDigits;
    if s[0] == '+' || s[0] == '-' {
      assert ParseDigits(s[1..]).Some?;
      if s[1..] == [] {
        NoDigits();
      } else {
        ParseDigitsChars(s[1..], if k > 0 then k - 1 else 0);
        assert s[1..][|s| - 2] == s[|s| - 1];
      }
    } else {
      ParseDigitsChars(s, k);
    }
  }

  lemma NoDigits()
    ensures ParseDigits("").None?
  {
  }

  /** A single underscore between digits does not change the number. */
  lemma {:induction false} UnderscoreIgnored(a: string, b: string)
    requires ParseDigits(a).Some? && b != "" && forall k :: 0 <= k < |b| ==> IsDigit(b[k])
    ensures ParseDigits(a + "_" + b) == ParseDigits(a + b) != None
  {
    var init, s, t := b[..|b| - 1], a + "_" + b, a + b;
    ParseDigitsChars(a, 0);
    if init == [] {
      assert s[..|s| - 2] == a && t[..|t| - 1] == a;
    } else {
      UnderscoreIgnored(a, init);
      assert s[..|s| - 1] == a + "_" + init && t[..|t| - 1] == a + init;
      assert IsDigit(s[|s| - 2]) && IsDigit(t[|t| - 2]);
    }
  }
}
