/** Cleaning cartridges for LTO drives (openblade/api/aml_state.py): drives in id order take the
    first free cartridge of their own type, then any free one, then a generated barcode. */
module CleaningCartridges {
  import opened Decimal
  import opened Names
  import opened Text

  datatype Cartridge = Cartridge(barcode: string, mediaType: string)

  datatype Drive = Drive(id: string, driveType: string)

  // ---- normalization ----

  function NormalType(t: string): string {
    Upper(Trim(t))
  }

  /** The cartridges with a barcode, stripped, their types stripped and in upper case. */
  function Stock(media: seq<Cartridge>): seq<Cartridge> {
    if media == [] then []
    else
      var c := Cartridge(Trim(media[0].barcode), NormalType(media[0].mediaType));
      (if c.barcode == "" then [] else [c]) + Stock(media[1..])
  }

  predicate NeedsCleaning(d: Drive) {
    Trim(d.id) != "" && StartsWith(NormalType(d.driveType), "LTO-")
  }

  /** The drives that get a cartridge, in the order given. */
  function LtoDrives(drives: seq<Drive>): seq<Drive> {
    if drives == [] then []
    else (if NeedsCleaning(drives[0]) then [drives[0]] else []) + LtoDrives(drives[1..])
  }

  function WantedType(d: Drive): string {
    NormalType(d.driveType) + "-CLN"
  }

  /** The drives that get a cartridge are the LTO drives with an id, each as often as it is given. */
  lemma {:induction false} LtoDrivesExactly(drives: seq<Drive>, d: Drive)
    ensures multiset(LtoDrives(drives))[d] ==
      if Trim(d.id) != "" && "LTO-" <= Upper(Trim(d.driveType)) then multiset(drives)[d] else 0
  {
    hide Trim, Upper;
    if drives != [] {
      LtoDrivesExactly(drives[1..], d);
      assert drives == [drives[0]] + drives[1..];
    }
  }

  lemma StockCons(c: Cartridge, rest: seq<Cartridge>)
    ensures Stock([c] + rest) == Stock([c]) + Stock(rest)
  {
    hide Trim, NormalType;
    assert ([c] + rest)[1..] == rest && [c][1..] == [];
  }

  lemma Associates<T>(x: seq<T>, y: seq<T>, z: seq<T>)
    ensures x + (y + z) == (x + y) + z
  {
  }

  /** The stock keeps the order of the inventory. */
  lemma {:induction false} StockConcat(a: seq<Cartridge>, b: seq<Cartridge>)
    ensures Stock(a + b) == Stock(a) + Stock(b)
  {
    hide NormalType, Trim;
    if a == [] {
      assert a + b == b;
    } else {
      hide *;
      StockConcat(a[1..], b);
      assert a == [a[0]] + a[1..];
      Associates([a[0]], a[1..], b);
      StockCons(a[0], a[1..] + b);
      StockCons(a[0], a[1..]);
      Associates(Stock([a[0]]), Stock(a[1..]), Stock(b));
    }
  }

  /** It holds the cartridges whose stripped barcode is not empty, their types stripped and in upper
      case. */
  lemma {:induction false} StockExactly(media: seq<Cartridge>, c: Cartridge)
    ensures c in Stock(media) <==> (c.barcode != "" &&
      exists m :: m in media && Trim(m.barcode) == c.barcode && Upper(Trim(m.mediaType)) == c.mediaType)
  {
    hide Trim, Upper;
    if media != [] {
      StockExactly(media[1..], c);
      assert media == [media[0]] + media[1..];
    }
  }

  // ---- generated barcodes ----

  function Padded(digits: string): string {
    if |digits| == 1 then "00" + digits else if |digits| == 2 then "0" + digits else digits
  }

  /** `CLN{900 + seed:03d}L9` */
  function Generated(seed: nat): string {
    "CLN" + Padded(Render(900 + seed)) + "L9"
  }

  lemma RenderLength(n: nat)
    requires n >= 100
    ensures |Render(n)| >= 3
  {
    assert |Render(n / 10)| >= 2 by {
      assert Render(n / 10) == Render(n / 10 / 10) + [DigitChar(n / 10 % 10)];
    }
  }

  /** Different seeds generate different barcodes. */
  lemma GeneratedInjective(m: nat, n: nat)
    requires Generated(m) == Generated(n)
    ensures m == n
  {
    hide Render;
    RenderLength(900 + m);
    RenderLength(900 + n);
    var x, y := Render(900 + m), Render(900 + n);
    assert "CLN" + x + "L9" == "CLN" + y + "L9";
    assert x == ("CLN" + x + "L9")[3..3 + |x|];
    assert y == ("CLN" + y + "L9")[3..3 + |y|];
    RenderInjective(900 + m, 900 + n);
  }

  /** From 901 on the number has three digits of its own. */
  lemma GeneratedText(seed: nat)
    ensures Generated(seed) == "CLN" + Render(900 + seed) + "L9"
  {
    hide Render;
    RenderLength(900 + seed);
  }

  // ---- the greedy rule ----

  predicate Free(c: Cartridge, consumed: set<string>) {
    c.barcode !in consumed
  }

  /** `b` is the barcode of the first free cartridge, of type `wanted` if one is given. */
  ghost predicate IsFirstFree(stock: seq<Cartridge>, wanted: set<string>, consumed: set<string>, b: string) {
    exists k :: 0 <= k < |stock| && stock[k].barcode == b && Free(stock[k], consumed) && stock[k].mediaType in wanted
      && forall j :: 0 <= j < k && stock[j].mediaType in wanted ==> !Free(stock[j], consumed)
  }

  ghost predicate SomeFree(stock: seq<Cartridge>, wanted: set<string>, consumed: set<string>) {
    exists k :: 0 <= k < |stock| && Free(stock[k], consumed) && stock[k].mediaType in wanted
  }

  function Types(stock: seq<Cartridge>): set<string> {
    set c | c in stock :: c.mediaType
  }

  /** The first generated barcode that is not consumed. */
  ghost predicate IsFirstGenerated(consumed: set<string>, b: string) {
    exists s: nat :: s >= 1 && b == Generated(s) && b !in consumed
      && forall t: nat :: 1 <= t < s ==> Generated(t) in consumed
  }

  /** What a drive takes when `consumed` has gone to the drives before it. */
  ghost predicate IsPick(stock: seq<Cartridge>, d: Drive, consumed: set<string>, b: string) {
    if SomeFree(stock, {WantedType(d)}, consumed) then IsFirstFree(stock, {WantedType(d)}, consumed, b)
    else if SomeFree(stock, Types(stock), consumed) then IsFirstFree(stock, Types(stock), consumed, b)
    else IsFirstGenerated(consumed, b)
  }

  ghost predicate IsGreedy(stock: seq<Cartridge>, drives: seq<Drive>, picks: seq<string>) {
    |picks| == |drives| && forall i :: 0 <= i < |picks| ==> IsPick(stock, drives[i], Elements(picks[..i]), picks[i])
  }

  function Barcodes(stock: seq<Cartridge>): set<string> {
    set c | c in stock :: c.barcode
  }

  // ---- laws of the greedy rule ----

  lemma PickFacts(stock: seq<Cartridge>, d: Drive, consumed: set<string>, b: string)
    requires IsPick(stock, d, consumed, b)
    ensures b !in consumed
    ensures b in Barcodes(stock) <==> !(Barcodes(stock) <= consumed)
  {
    hide Generated, WantedType;
    if SomeFree(stock, Types(stock), consumed) {
      var k :| 0 <= k < |stock| && Free(stock[k], consumed) && stock[k].mediaType in Types(stock);
      assert stock[k].barcode in Barcodes(stock);
    } else {
      forall x | x in Barcodes(stock)
        ensures x in consumed
      {
        var c :| c in stock && c.barcode == x;
        assert c.mediaType in Types(stock);
      }
    }
  }

  /** No two drives share a barcode. */
  lemma PicksDistinct(stock: seq<Cartridge>, drives: seq<Drive>, picks: seq<string>, i: nat, j: nat)
    requires IsGreedy(stock, drives, picks) && i < j < |picks|
    ensures picks[i] != picks[j]
  {
    hide IsPick;
    PickFacts(stock, drives[j], Elements(picks[..j]), picks[j]);
    assert picks[..j][i] == picks[i];
  }

  lemma OneMore(before: set<string>, genuine: set<string>, b: string, n: nat)
    requires b !in before && (b in genuine <==> !(genuine <= before))
    requires |before * genuine| == if n < |genuine| then n else |genuine|
    ensures |(before + {b}) * genuine| == if n + 1 < |genuine| then n + 1 else |genuine|
  {
    if genuine <= before {
      assert before * genuine == genuine;
      assert (before + {b}) * genuine == genuine;
    } else {
      assert (before + {b}) * genuine == before * genuine + {b};
      ProperPart(before * genuine, genuine);
    }
  }

  lemma {:induction false} PrefixReal(stock: seq<Cartridge>, drives: seq<Drive>, picks: seq<string>, n: nat)
    requires IsGreedy(stock, drives, picks) && n <= |picks|
    ensures |Elements(picks[..n]) * Barcodes(stock)| == if n < |Barcodes(stock)| then n else |Barcodes(stock)|
  {
    hide IsPick, Barcodes;
    if n == 0 {
      assert Elements(picks[..0]) * Barcodes(stock) == {};
    } else {
      PrefixReal(stock, drives, picks, n - 1);
      var before, b := Elements(picks[..n - 1]), picks[n - 1];
      PickFacts(stock, drives[n - 1], before, b);
      assert picks[..n] == picks[..n - 1] + [b];
      assert Elements(picks[..n]) == before + {b};
      OneMore(before, Barcodes(stock), b, n - 1);
    }
  }

  lemma ProperPart(part: set<string>, whole: set<string>)
    requires part <= whole && part != whole
    ensures |part| < |whole|
  {
    assert whole == part + (whole - part);
    assert whole - part != {};
  }

  /** Exactly as many real cartridges are used as there are, or as there are drives. */
  lemma RealCartridgesUsed(stock: seq<Cartridge>, drives: seq<Drive>, picks: seq<string>)
    requires IsGreedy(stock, drives, picks)
    ensures |Elements(picks) * Barcodes(stock)| ==
      if |drives| < |Barcodes(stock)| then |drives| else |Barcodes(stock)|
  {
    PrefixReal(stock, drives, picks, |picks|);
    assert picks[..|picks|] == picks;
  }

  /** A drive without a cartridge of its own type finds them all with earlier drives. */
  lemma MatchingTypePreferred(
      stock: seq<Cartridge>, drives: seq<Drive>, picks: seq<string>, i: nat, c: Cartridge)
    requires IsGreedy(stock, drives, picks) && i < |picks|
    requires c in stock && c.mediaType == Upper(Trim(drives[i].driveType)) + "-CLN"
    ensures c.barcode in Elements(picks[..i])
      || Cartridge(picks[i], Upper(Trim(drives[i].driveType)) + "-CLN") in stock
  {
    hide Generated, Trim, Upper;
    assert IsPick(stock, drives[i], Elements(picks[..i]), picks[i]);
    if c.barcode !in Elements(picks[..i]) {
      var k :| 0 <= k < |stock| && stock[k] == c;
      assert Free(stock[k], Elements(picks[..i]));
    }
  }

  /** The greedy rule leaves one possible outcome. */
  lemma {:induction false} GreedyUnique(
      stock: seq<Cartridge>, drives: seq<Drive>, p: seq<string>, q: seq<string>, n: nat)
    requires IsGreedy(stock, drives, p) && IsGreedy(stock, drives, q) && n <= |drives|
    ensures p[..n] == q[..n]
  {
    hide IsPick;
    if n > 0 {
      GreedyUnique(stock, drives, p, q, n - 1);
      PickUnique(stock, drives[n - 1], Elements(p[..n - 1]), p[n - 1], q[n - 1]);
      assert p[..n] == p[..n - 1] + [p[n - 1]] && q[..n] == q[..n - 1] + [q[n - 1]];
    }
  }

  lemma PickUnique(stock: seq<Cartridge>, d: Drive, consumed: set<string>, b: string, c: string)
    requires IsPick(stock, d, consumed, b) && IsPick(stock, d, consumed, c)
    ensures b == c
  {
    hide Generated, WantedType, Types;
  }

  // ---- ordering the drives ----

  /** Python's order on strings. */
  predicate AtMost(a: string, b: string) {
    a == [] || (b != [] && (a[0] < b[0] || (a[0] == b[0] && AtMost(a[1..], b[1..]))))
  }

  lemma {:induction false} AtMostTotal(a: string, b: string)
    ensures AtMost(a, b) || AtMost(b, a)
  {
    if a != [] && b != [] && a[0] == b[0] {
      AtMostTotal(a[1..], b[1..]);
    }
  }

  lemma {:induction false} AtMostTransitive(a: string, b: string, c: string)
    requires AtMost(a, b) && AtMost(b, c)
    ensures AtMost(a, c)
  {
    if a != [] && a[0] == b[0] == c[0] {
      AtMostTransitive(a[1..], b[1..], c[1..]);
    }
  }

  lemma FirstSame(a: string, b: string, k: nat)
    requires 0 < k <= |a| && k <= |b| && a[..k] == b[..k]
    ensures a[0] == b[0]
  {
    assert a[..k][0] == a[0] && b[..k][0] == b[0];
  }

  /** It goes by the first difference, and a text comes before its continuations. */
  lemma {:induction false} AtMostExactly(a: string, b: string)
    ensures AtMost(a, b) <==>
      a <= b || exists k :: 0 <= k < |a| && k < |b| && a[..k] == b[..k] && a[k] < b[k]
  {
    if a != [] && b != [] && a[0] == b[0] {
      var s, t := a[1..], b[1..];
      AtMostExactly(s, t);
      assert a == [a[0]] + s && b == [b[0]] + t;
      if k :| 0 <= k < |s| && k < |t| && s[..k] == t[..k] && s[k] < t[k] {
        assert a[..k + 1] == [a[0]] + s[..k] && b[..k + 1] == [b[0]] + t[..k];
        assert a[k + 1] < b[k + 1];
      }
      if k :| 0 <= k < |a| && k < |b| && a[..k] == b[..k] && a[k] < b[k] {
        assert k > 0;
        assert s[..k - 1] == a[..k][1..] && t[..k - 1] == b[..k][1..];
        assert s[k - 1] < t[k - 1];
      }
    } else if a != [] && b != [] {
      assert a[0] < b[0] ==> a[..0] == b[..0];
      if k :| 0 <= k < |a| && k < |b| && a[..k] == b[..k] && a[k] < b[k] {
        if k > 0 {
          FirstSame(a, b, k);
        }
      }
    }
  }

  ghost predicate SortedById(drives: seq<Drive>) {
    forall i, j :: 0 <= i < j < |drives| ==> AtMost(drives[i].id, drives[j].id)
  }

  /** The drives with one id, in the order given. */
  ghost function WithId(drives: seq<Drive>, id: string): seq<Drive> {
    if drives == [] then []
    else (if drives[0].id == id then [drives[0]] else []) + WithId(drives[1..], id)
  }

  lemma WithIdCons(d: Drive, rest: seq<Drive>, id: string)
    ensures WithId([d] + rest, id) == WithId([d], id) + WithId(rest, id)
  {
    assert ([d] + rest)[1..] == rest && [d][1..] == [];
  }

  lemma {:induction false} WithIdConcat(a: seq<Drive>, b: seq<Drive>, id: string)
    ensures WithId(a + b, id) == WithId(a, id) + WithId(b, id)
  {
    if a == [] {
      assert a + b == b;
    } else {
      hide *;
      WithIdConcat(a[1..], b, id);
      assert a == [a[0]] + a[1..];
      Associates([a[0]], a[1..], b);
      WithIdCons(a[0], a[1..] + b, id);
      WithIdCons(a[0], a[1..], id);
      Associates(WithId([a[0]], id), WithId(a[1..], id), WithId(b, id));
    }
  }

  lemma {:induction false} WithoutId(drives: seq<Drive>, id: string)
    requires forall j :: 0 <= j < |drives| ==> drives[j].id != id
    ensures WithId(drives, id) == []
  {
    if drives != [] {
      WithoutId(drives[1..], id);
    }
  }

  /** `sorted` holds the same drives as `drives`, and those with one id in the same order. */
  ghost predicate IsStable(sorted: seq<Drive>, drives: seq<Drive>) {
    multiset(sorted) == multiset(drives) && forall id :: WithId(sorted, id) == WithId(drives, id)
  }

  lemma InsertStable(sorted: seq<Drive>, drives: seq<Drive>, d: Drive, k: nat)
    requires IsStable(sorted, drives) && k <= |sorted|
    requires forall j :: k <= j < |sorted| ==> sorted[j].id != d.id
    ensures IsStable(sorted[..k] + [d] + sorted[k..], drives + [d])
  {
    hide WithId;
    var left, right := sorted[..k], sorted[k..];
    assert sorted == left + right;
    forall id
      ensures WithId(left + [d] + right, id) == WithId(drives + [d], id)
    {
      WithIdConcat(left + [d], right, id);
      WithIdConcat(left, [d], id);
      WithIdConcat(left, right, id);
      WithIdConcat(drives, [d], id);
      if id == d.id {
        WithoutId(right, id);
      } else {
        WithoutId([d], id);
      }
    }
  }

  /** `sorted(drives, key=id)`: each drive goes behind those that are not greater. */
  method SortById(drives: seq<Drive>) returns (sorted: seq<Drive>)
    ensures SortedById(sorted) && IsStable(sorted, drives)
  {
    hide AtMost, IsStable;
    sorted := [];
    assert IsStable([], drives[..0]) by { NothingStable(drives); }
    for i := 0 to |drives|
      invariant SortedById(sorted) && IsStable(sorted, drives[..i])
    {
      var d := drives[i];
      var k := |sorted|;
      while k > 0 && !AtMost(sorted[k - 1].id, d.id)
        invariant 0 <= k <= |sorted|
        invariant forall j :: k <= j < |sorted| ==> AtMost(d.id, sorted[j].id) && sorted[j].id != d.id
      {
        AtMostTotal(sorted[k - 1].id, d.id);
        AtMostTotal(d.id, d.id);
        k := k - 1;
      }
      InsertSorted(sorted, d, k);
      InsertStable(sorted, drives[..i], d, k);
      assert drives[..i + 1] == drives[..i] + [d];
      sorted := sorted[..k] + [d] + sorted[k..];
    }
    assert drives[..|drives|] == drives;
  }

  lemma NothingStable(drives: seq<Drive>)
    ensures IsStable([], drives[..0])
  {
    assert drives[..0] == [];
  }

  lemma InsertSorted(sorted: seq<Drive>, d: Drive, k: nat)
    requires SortedById(sorted) && k <= |sorted|
    requires k > 0 ==> AtMost(sorted[k - 1].id, d.id)
    requires forall j :: k <= j < |sorted| ==> AtMost(d.id, sorted[j].id)
    ensures SortedById(sorted[..k] + [d] + sorted[k..])
  {
    hide AtMost;
    forall i | 0 <= i < k
      ensures AtMost(sorted[i].id, d.id)
    {
      if i < k - 1 {
        AtMostTransitive(sorted[i].id, sorted[k - 1].id, d.id);
      }
    }
  }

  // ---- the assignment ----

  /** The generator skips consumed names from `seed` on; it stops because the names differ and
      only finitely many are consumed. */
  method NextGenerated(seed: nat, consumed: set<string>) returns (barcode: string, next: nat)
    requires seed >= 1 && forall t: nat :: 1 <= t < seed ==> Generated(t) in consumed
    ensures IsFirstGenerated(consumed, barcode)
    ensures next >= 1 && forall t: nat :: 1 <= t < next ==> Generated(t) in consumed + {barcode}
  {
    hide Generated;
    next := seed;
    ghost var tried: set<string> := {};
    while true
      invariant next >= seed
      invariant forall t: nat :: 1 <= t < next ==> Generated(t) in consumed
      invariant forall b :: b in tried ==> exists t: nat :: seed <= t < next && b == Generated(t)
      decreases consumed - tried
    {
      barcode := Generated(next);
      next := next + 1;
      if barcode !in consumed {
        return;
      }
      if barcode in tried {
        var t: nat :| seed <= t < next - 1 && barcode == Generated(t);
        GeneratedInjective(t, next - 1);
      }
      tried := tried + {barcode};
    }
  }

  method FirstFree(stock: seq<Cartridge>, wanted: set<string>, consumed: set<string>) returns (k: nat)
    ensures k <= |stock|
    ensures k < |stock| ==> IsFirstFree(stock, wanted, consumed, stock[k].barcode)
    ensures k < |stock| <==> SomeFree(stock, wanted, consumed)
  {
    k := 0;
    while k < |stock|
      invariant 0 <= k <= |stock|
      invariant forall j :: 0 <= j < k && stock[j].mediaType in wanted ==> !Free(stock[j], consumed)
    {
      if stock[k].mediaType in wanted && Free(stock[k], consumed) {
        return;
      }
      k := k + 1;
    }
  }

  /** Each id is mapped to what the last drive of that id picked, and no other id is mapped. */
  ghost predicate IsAssignment(barcodeOf: map<string, string>, lto: seq<Drive>, picks: seq<string>) {
    && |picks| == |lto|
    && (forall id :: id in barcodeOf <==> exists i :: 0 <= i < |lto| && Trim(lto[i].id) == id)
    && forall i :: 0 <= i < |lto| && (forall j :: i < j < |lto| ==> Trim(lto[j].id) != Trim(lto[i].id)) ==>
         Trim(lto[i].id) in barcodeOf && barcodeOf[Trim(lto[i].id)] == picks[i]
  }

  lemma {:induction false} LastHolder(lto: seq<Drive>, id: string, n: nat) returns (i: nat)
    requires n <= |lto| && exists k :: 0 <= k < n && Trim(lto[k].id) == id
    ensures i < n && Trim(lto[i].id) == id && forall j :: i < j < n ==> Trim(lto[j].id) != id
  {
    hide Trim;
    i := n - 1;
    if Trim(lto[i].id) != id {
      i := LastHolder(lto, id, n - 1);
    }
  }

  lemma AssignedPick(barcodeOf: map<string, string>, lto: seq<Drive>, picks: seq<string>, id: string) returns (i: nat)
    requires IsAssignment(barcodeOf, lto, picks) && id in barcodeOf
    ensures i < |lto| == |picks| && Trim(lto[i].id) == id && barcodeOf[id] == picks[i]
  {
    hide Trim;
    i := LastHolder(lto, id, |lto|);
  }

  /** No barcode is assigned to two ids. */
  lemma AssignmentInjective(
      barcodeOf: map<string, string>, stock: seq<Cartridge>, lto: seq<Drive>, picks: seq<string>)
    requires IsGreedy(stock, lto, picks) && IsAssignment(barcodeOf, lto, picks)
    ensures forall a, b :: a in barcodeOf && b in barcodeOf && barcodeOf[a] == barcodeOf[b] ==> a == b
  {
    hide IsGreedy, IsAssignment, Trim;
    forall a, b | a in barcodeOf && b in barcodeOf && barcodeOf[a] == barcodeOf[b]
      ensures a == b
    {
      var i := AssignedPick(barcodeOf, lto, picks, a);
      var j := AssignedPick(barcodeOf, lto, picks, b);
      if i < j {
        PicksDistinct(stock, lto, picks, i, j);
      } else if j < i {
        PicksDistinct(stock, lto, picks, j, i);
      }
    }
  }

  /** The drives' stripped ids are the assigned ones, and when they are distinct each drive has its
      own pick. */
  lemma AssignmentComplete(barcodeOf: map<string, string>, lto: seq<Drive>, picks: seq<string>)
    requires IsAssignment(barcodeOf, lto, picks)
    ensures forall id :: id in barcodeOf <==> exists d :: d in lto && Trim(d.id) == id
    ensures (forall i, j :: 0 <= i < j < |lto| ==> Trim(lto[i].id) != Trim(lto[j].id)) ==>
      forall i :: 0 <= i < |lto| ==> Trim(lto[i].id) in barcodeOf && barcodeOf[Trim(lto[i].id)] == picks[i]
  {
    hide Trim;
    forall id
      ensures id in barcodeOf <==> exists d :: d in lto && Trim(d.id) == id
    {
      if id in barcodeOf {
        var i :| 0 <= i < |lto| && Trim(lto[i].id) == id;
        assert lto[i] in lto;
      }
    }
  }

  /** The picks, and the mapping from drive ids to barcodes that they make; a later drive
      overwrites an earlier one with the same id. */
  method AssignCleaningBarcodes(drives: seq<Drive>, media: seq<Cartridge>)
      returns (barcodeOf: map<string, string>, picks: seq<string>, order: seq<Drive>)
    ensures IsStable(order, drives) && SortedById(order)
    ensures IsGreedy(Stock(media), LtoDrives(order), picks)
    ensures IsAssignment(barcodeOf, LtoDrives(order), picks)
  {
    hide IsStable, Stock, LtoDrives, Generated, WantedType, SortedById, Types, Trim;
    hide IsFirstFree, SomeFree, IsFirstGenerated;
    order := SortById(drives);
    var lto, stock := LtoDrives(order), Stock(media);
    barcodeOf, picks := map[], [];
    var consumed: set<string> := {};
    var seed := 1;
    for n := 0 to |lto|
      invariant |picks| == n && consumed == Elements(picks)
      invariant forall i :: 0 <= i < n ==> IsPick(stock, lto[i], Elements(picks[..i]), picks[i])
      invariant seed >= 1 && forall t: nat :: 1 <= t < seed ==> Generated(t) in consumed
      invariant forall id :: id in barcodeOf <==> exists i :: 0 <= i < n && Trim(lto[i].id) == id
      invariant forall i :: 0 <= i < n && (forall j :: i < j < n ==> Trim(lto[j].id) != Trim(lto[i].id)) ==>
                  barcodeOf[Trim(lto[i].id)] == picks[i]
    {
      var barcode;
      barcode, seed := Pick(stock, lto[n], consumed, seed);
      ghost var before := picks;
      picks := picks + [barcode];
      assert picks[..n] == before;
      assert forall i :: 0 <= i < n ==> picks[..i] == before[..i];
      consumed := consumed + {barcode};
      barcodeOf := barcodeOf[Trim(lto[n].id) := barcode];
    }
  }

  method Pick(stock: seq<Cartridge>, d: Drive, consumed: set<string>, seed: nat) returns (barcode: string, next: nat)
    requires seed >= 1 && forall t: nat :: 1 <= t < seed ==> Generated(t) in consumed
    ensures IsPick(stock, d, consumed, barcode)
    ensures next >= 1 && forall t: nat :: 1 <= t < next ==> Generated(t) in consumed + {barcode}
  {
    hide Generated, WantedType, Types;
    next := seed;
    var k := FirstFree(stock, {WantedType(d)}, consumed);
    if k == |stock| {
      k := FirstFree(stock, Types(stock), consumed);
    }
    if k < |stock| {
      barcode := stock[k].barcode;
    } else {
      barcode, next := NextGenerated(seed, consumed);
    }
  }

  // ---- the assignment, by the drives and cartridges given ----

  /** The LTO drive's own cleaning type. */
  ghost predicate OwnType(c: Cartridge, d: Drive) {
    Upper(Trim(c.mediaType)) == Upper(Trim(d.driveType)) + "-CLN"
  }

  /** A drive gets a cartridge of its own cleaning type unless earlier drives have all of those. */
  lemma OwnTypePreferred(media: seq<Cartridge>, lto: seq<Drive>, picks: seq<string>, i: nat, k: nat) returns (n: nat)
    requires IsGreedy(Stock(media), lto, picks) && i < |picks| == |lto|
    requires k < |media| && Trim(media[k].barcode) != "" && OwnType(media[k], lto[i])
    requires Trim(media[k].barcode) !in Elements(picks[..i])
    ensures n < |media| && Trim(media[n].barcode) == picks[i] && OwnType(media[n], lto[i])
  {
    hide IsGreedy, Stock, Trim, Upper;
    var wanted := Upper(Trim(lto[i].driveType)) + "-CLN";
    var c := Cartridge(Trim(media[k].barcode), wanted);
    StockExactly(media, c);
    MatchingTypePreferred(Stock(media), lto, picks, i, c);
    StockExactly(media, Cartridge(picks[i], wanted));
    n :| 0 <= n < |media| && Trim(media[n].barcode) == picks[i] && Upper(Trim(media[n].mediaType)) == wanted;
  }

  /** `d` is one of the drives given, an LTO drive, and has an id. */
  ghost predicate IsLto(drives: seq<Drive>, d: Drive) {
    d in drives && Trim(d.id) != "" && "LTO-" <= Upper(Trim(d.driveType))
  }

  lemma LtoMembers(drives: seq<Drive>, order: seq<Drive>, d: Drive)
    requires multiset(order) == multiset(drives)
    ensures d in LtoDrives(order) <==> IsLto(drives, d)
  {
    hide Trim, Upper, LtoDrives;
    LtoDrivesExactly(order, d);
    assert d in LtoDrives(order) <==> multiset(LtoDrives(order))[d] > 0;
    assert d in drives <==> multiset(drives)[d] > 0;
  }

  /** The ids that are assigned are those of the LTO drives given. */
  lemma AssignedExactly(
      drives: seq<Drive>, order: seq<Drive>, picks: seq<string>, barcodeOf: map<string, string>, id: string)
    requires multiset(order) == multiset(drives) && IsAssignment(barcodeOf, LtoDrives(order), picks)
    ensures id in barcodeOf <==> exists d :: IsLto(drives, d) && Trim(d.id) == id
  {
    hide IsAssignment, IsLto, Trim, LtoDrives;
    AssignmentComplete(barcodeOf, LtoDrives(order), picks);
    forall d
      ensures d in LtoDrives(order) <==> IsLto(drives, d)
    {
      LtoMembers(drives, order, d);
    }
  }

  /** Of the cartridges given exactly as many are used as there are, or as there are such drives. */
  lemma GenuineUsed(media: seq<Cartridge>, lto: seq<Drive>, picks: seq<string>)
    requires IsGreedy(Stock(media), lto, picks)
    ensures var genuine := set c | c in media && Trim(c.barcode) != "" :: Trim(c.barcode);
      |Elements(picks) * genuine| == if |lto| < |genuine| then |lto| else |genuine|
  {
    hide IsGreedy, Trim, Stock;
    GenuineBarcodes(media);
    RealCartridgesUsed(Stock(media), lto, picks);
  }

  lemma GenuineBarcodes(media: seq<Cartridge>)
    ensures Barcodes(Stock(media)) == set c | c in media && Trim(c.barcode) != "" :: Trim(c.barcode)
  {
    hide Trim, Upper, Stock;
    forall b
      ensures b in Barcodes(Stock(media)) <==> b in set c | c in media && Trim(c.barcode) != "" :: Trim(c.barcode)
    {
      if b in Barcodes(Stock(media)) {
        var c :| c in Stock(media) && c.barcode == b;
        StockExactly(media, c);
      }
      if c :| c in media && Trim(c.barcode) != "" && Trim(c.barcode) == b {
        StockExactly(media, Cartridge(b, Upper(Trim(c.mediaType))));
        assert Cartridge(b, Upper(Trim(c.mediaType))) in Stock(media);
      }
    }
  }
}
