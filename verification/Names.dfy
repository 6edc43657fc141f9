/** Lists of names: their elements, lists without repetition, and removal. */
module Names {

  function Elements(names: seq<string>): set<string> {
    set n | n in names
  }

  ghost predicate Distinct(names: seq<string>) {
    forall i, j :: 0 <= i < j < |names| ==> names[i] != names[j]
  }

  function Without(names: seq<string>, drop: set<string>): seq<string> {
    if names == [] then []
    else (if names[0] in drop then [] else [names[0]]) + Without(names[1..], drop)
  }

  lemma {:induction false} WithoutNothing(names: seq<string>)
    ensures Without(names, {}) == names
  {
    if names != [] {
      WithoutNothing(names[1..]);
    }
  }

  lemma {:induction false} WithoutMembers(names: seq<string>, drop: set<string>, b: string)
    ensures b in Without(names, drop) <==> b in names && b !in drop
  {
    if names != [] {
      WithoutMembers(names[1..], drop, b);
    }
  }

  /** Removal takes out exactly what is dropped and repeats nothing. */
  lemma {:induction false} WithoutFacts(names: seq<string>, drop: set<string>)
    ensures forall n :: n in Without(names, drop) <==> n in names && n !in drop
    ensures Distinct(names) ==> Distinct(Without(names, drop))
  {
    if names != [] {
      WithoutFacts(names[1..], drop);
      assert names == [names[0]] + names[1..];
      if Distinct(names) {
        var kept := Without(names[1..], drop);
        assert forall i :: 0 <= i < |kept| ==> kept[i] in kept;
        assert forall i :: 1 <= i < |names| ==> names[i] == names[1..][i - 1];
      }
    }
  }
}
