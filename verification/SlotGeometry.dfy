/** Slot geometry (openblade/api/routes_aml_library.py): storage slots are numbered through the
    towers in bay order, and a slot's coordinate names its bay and its row there. */
module SlotGeometry {

  datatype Tower = Tower(bay: int, slots: int)

  const STORAGE_ELEMENT_TYPE := 2

  datatype Coordinate = Coordinate(frame: int, rack: int, section: int, column: int, row: int, elementType: int)

  function StorageAt(bay: int, row: int): Coordinate {
    Coordinate(1, 1, bay, 1, row, STORAGE_ELEMENT_TYPE)
  }

  // ---- towers in bay order ----

  ghost predicate SortedByBay(towers: seq<Tower>) {
    forall i, j :: 0 <= i < j < |towers| ==> towers[i].bay <= towers[j].bay
  }

  /** `sorted(towers, key=bay)`: each tower goes behind those with the same or a lower bay. */
  function Insert(sorted: seq<Tower>, t: Tower): seq<Tower> {
    if sorted == [] || sorted[|sorted| - 1].bay <= t.bay then sorted + [t]
    else Insert(sorted[..|sorted| - 1], t) + [sorted[|sorted| - 1]]
  }

  function SortByBay(towers: seq<Tower>): seq<Tower> {
    if towers == [] then [] else Insert(SortByBay(towers[..|towers| - 1]), towers[|towers| - 1])
  }

  lemma {:induction false} InsertMembers(sorted: seq<Tower>, t: Tower)
    ensures forall x :: x in Insert(sorted, t) <==> x in sorted || x == t
  {
    if sorted != [] && sorted[|sorted| - 1].bay > t.bay {
      InsertMembers(sorted[..|sorted| - 1], t);
      assert sorted == sorted[..|sorted| - 1] + [sorted[|sorted| - 1]];
    }
  }

  lemma {:induction false} InsertSorted(sorted: seq<Tower>, t: Tower)
    requires SortedByBay(sorted)
    ensures SortedByBay(Insert(sorted, t))
  {
    if sorted != [] && sorted[|sorted| - 1].bay > t.bay {
      var init, last := sorted[..|sorted| - 1], sorted[|sorted| - 1];
      InsertSorted(init, t);
      InsertMembers(init, t);
      forall i | 0 <= i < |Insert(init, t)|
        ensures Insert(init, t)[i].bay <= last.bay
      {
        assert Insert(init, t)[i] in Insert(init, t);
      }
    }
  }

  /** Sorting orders the towers and neither adds nor drops one. */
  lemma {:induction false} SortFacts(towers: seq<Tower>)
    ensures SortedByBay(SortByBay(towers))
    ensures forall x :: x in SortByBay(towers) <==> x in towers
  {
    if towers != [] {
      var init, last := towers[..|towers| - 1], towers[|towers| - 1];
      SortFacts(init);
      InsertSorted(SortByBay(init), last);
      InsertMembers(SortByBay(init), last);
      assert towers == init + [last];
    }
  }

  // ---- the coordinate of a slot ----

  /** The loop's answer for a slot number counted from the first of these towers; `slot` is the
      original number, which the fallback uses. */
  function Locate(sorted: seq<Tower>, remaining: int, slot: int): Coordinate {
    if sorted == [] then StorageAt(1, slot)
    else if remaining <= sorted[0].slots then StorageAt(sorted[0].bay, remaining)
    else Locate(sorted[1..], remaining - sorted[0].slots, slot)
  }

  method SlotCoordinate(towers: seq<Tower>, slot: int) returns (c: Coordinate)
    ensures c == Locate(SortByBay(towers), slot, slot)
    ensures c.frame == 1 && c.rack == 1 && c.column == 1 && c.elementType == 2
  {
    var remaining := slot;
    var sorted := SortByBay(towers);
    for i := 0 to |sorted|
      invariant Locate(sorted, slot, slot) == Locate(sorted[i..], remaining, slot)
    {
      assert sorted[i..][0] == sorted[i] && sorted[i..][1..] == sorted[i + 1..];
      if remaining <= sorted[i].slots {
        return StorageAt(sorted[i].bay, remaining);
      }
      remaining := remaining - sorted[i].slots;
    }
    c := StorageAt(1, slot);
  }

  // ---- the inverse, stated without any order ----

  ghost predicate NonNegative(towers: seq<Tower>) {
    forall i :: 0 <= i < |towers| ==> towers[i].slots >= 0
  }

  /** No two towers that have slots share a bay; an empty tower may stand anywhere. */
  ghost predicate OccupiedBaysDistinct(towers: seq<Tower>) {
    forall i, j :: 0 <= i < j < |towers| && towers[i].slots >= 1 && towers[j].slots >= 1 ==>
      towers[i].bay != towers[j].bay
  }

  ghost predicate WellFormed(towers: seq<Tower>) {
    NonNegative(towers) && OccupiedBaysDistinct(towers)
  }

  /** Slots in towers with a bay below `bay`. */
  function SlotsBelow(towers: seq<Tower>, bay: int): int {
    if towers == [] then 0
    else SlotsBelow(towers[1..], bay) + if towers[0].bay < bay then towers[0].slots else 0
  }

  function TotalSlots(towers: seq<Tower>): int {
    if towers == [] then 0 else towers[0].slots + TotalSlots(towers[1..])
  }

  /** The coordinate names a row that exists in a tower that exists. */
  ghost predicate Exists(towers: seq<Tower>, c: Coordinate) {
    exists i :: 0 <= i < |towers| && 1 <= c.row <= towers[i].slots && c == StorageAt(towers[i].bay, c.row)
  }

  function SlotOf(towers: seq<Tower>, c: Coordinate): int {
    SlotsBelow(towers, c.section) + c.row
  }

  // ---- sorting changes no sum ----

  lemma {:induction false} SumsAppend(towers: seq<Tower>, t: Tower, bay: int)
    ensures SlotsBelow(towers + [t], bay) == SlotsBelow(towers, bay) + if t.bay < bay then t.slots else 0
    ensures TotalSlots(towers + [t]) == TotalSlots(towers) + t.slots
  {
    if towers != [] {
      SumsAppend(towers[1..], t, bay);
      assert (towers + [t])[1..] == towers[1..] + [t];
    }
  }

  lemma {:induction false} InsertSums(sorted: seq<Tower>, t: Tower, bay: int)
    ensures SlotsBelow(Insert(sorted, t), bay) == SlotsBelow(sorted, bay) + if t.bay < bay then t.slots else 0
    ensures TotalSlots(Insert(sorted, t)) == TotalSlots(sorted) + t.slots
  {
    if sorted == [] || sorted[|sorted| - 1].bay <= t.bay {
      SumsAppend(sorted, t, bay);
    } else {
      var init, last := sorted[..|sorted| - 1], sorted[|sorted| - 1];
      InsertSums(init, t, bay);
      SumsAppend(Insert(init, t), last, bay);
      SumsAppend(init, last, bay);
      assert sorted == init + [last];
    }
  }

  lemma {:induction false} SortSums(towers: seq<Tower>, bay: int)
    ensures SlotsBelow(SortByBay(towers), bay) == SlotsBelow(towers, bay)
    ensures TotalSlots(SortByBay(towers)) == TotalSlots(towers)
  {
    if towers != [] {
      var init, last := towers[..|towers| - 1], towers[|towers| - 1];
      SortSums(init, bay);
      InsertSums(SortByBay(init), last, bay);
      SumsAppend(init, last, bay);
      assert towers == init + [last];
    }
  }

  // ---- sorted towers ----

  /** `t` would share its bay with no tower that has slots. */
  ghost predicate FitsBeside(towers: seq<Tower>, t: Tower) {
    t.slots >= 1 ==> forall x :: x in towers && x.slots >= 1 ==> x.bay != t.bay
  }

  lemma OccupiedAppend(towers: seq<Tower>, t: Tower)
    ensures OccupiedBaysDistinct(towers + [t]) <==> OccupiedBaysDistinct(towers) && FitsBeside(towers, t)
  {
    var longer := towers + [t];
    assert longer[|towers|] == t;
    assert forall i :: 0 <= i < |towers| ==> longer[i] == towers[i] && towers[i] in towers;
  }

  lemma {:induction false} InsertOccupied(sorted: seq<Tower>, t: Tower)
    ensures OccupiedBaysDistinct(Insert(sorted, t)) <==> OccupiedBaysDistinct(sorted) && FitsBeside(sorted, t)
  {
    hide OccupiedBaysDistinct;
    if sorted == [] || sorted[|sorted| - 1].bay <= t.bay {
      OccupiedAppend(sorted, t);
    } else {
      var init, last := sorted[..|sorted| - 1], sorted[|sorted| - 1];
      assert sorted == init + [last];
      InsertOccupied(init, t);
      InsertMembers(init, t);
      OccupiedAppend(Insert(init, t), last);
      OccupiedAppend(init, last);
    }
  }

  /** Sorting changes neither whether occupied bays are distinct nor whether counts are negative. */
  lemma {:induction false} SortOccupied(towers: seq<Tower>)
    ensures OccupiedBaysDistinct(SortByBay(towers)) <==> OccupiedBaysDistinct(towers)
    ensures NonNegative(towers) ==> NonNegative(SortByBay(towers))
  {
    hide OccupiedBaysDistinct;
    SortFacts(towers);
    assert forall i :: 0 <= i < |SortByBay(towers)| ==> SortByBay(towers)[i] in SortByBay(towers);
    if towers != [] {
      var init, last := towers[..|towers| - 1], towers[|towers| - 1];
      assert towers == init + [last];
      SortOccupied(init);
      SortFacts(init);
      InsertOccupied(SortByBay(init), last);
      OccupiedAppend(init, last);
    }
  }

  /** The slots of the first `n` towers. */
  function Before(sorted: seq<Tower>, n: nat): int {
    if n == 0 || sorted == [] then 0 else sorted[0].slots + Before(sorted[1..], n - 1)
  }

  lemma {:induction false} BeforeBounds(sorted: seq<Tower>, i: nat)
    requires NonNegative(sorted) && i < |sorted|
    ensures 0 <= Before(sorted, i) && Before(sorted, i) + sorted[i].slots <= TotalSlots(sorted)
  {
    TotalNonNegative(sorted[1..]);
    if i > 0 {
      BeforeBounds(sorted[1..], i - 1);
    }
  }

  lemma {:induction false} TotalNonNegative(towers: seq<Tower>)
    requires NonNegative(towers)
    ensures TotalSlots(towers) >= 0
  {
    if towers != [] {
      TotalNonNegative(towers[1..]);
    }
  }

  /** Row `row` of tower `i` is reached by counting the slots before that tower. */
  lemma {:induction false} LocateRow(sorted: seq<Tower>, i: nat, row: int, slot: int)
    requires NonNegative(sorted) && i < |sorted| && 1 <= row <= sorted[i].slots
    ensures Locate(sorted, Before(sorted, i) + row, slot) == StorageAt(sorted[i].bay, row)
  {
    if i > 0 {
      BeforeBounds(sorted[1..], i - 1);
      LocateRow(sorted[1..], i - 1, row, slot);
    }
  }

  /** Every number up to the total is a row of some tower. */
  lemma {:induction false} FindRow(sorted: seq<Tower>, remaining: int) returns (i: nat, row: int)
    requires 1 <= remaining <= TotalSlots(sorted)
    ensures i < |sorted| && 1 <= row <= sorted[i].slots && remaining == Before(sorted, i) + row
  {
    if remaining <= sorted[0].slots {
      i, row := 0, remaining;
    } else {
      i, row := FindRow(sorted[1..], remaining - sorted[0].slots);
      i := i + 1;
    }
  }

  lemma {:induction false} LocateBeyond(sorted: seq<Tower>, remaining: int, slot: int)
    requires NonNegative(sorted) && remaining > TotalSlots(sorted)
    ensures Locate(sorted, remaining, slot) == StorageAt(1, slot)
  {
    if sorted != [] {
      TotalNonNegative(sorted[1..]);
      LocateBeyond(sorted[1..], remaining - sorted[0].slots, slot);
    }
  }

  lemma {:induction false} BeforeIsBelow(sorted: seq<Tower>, i: nat)
    requires SortedByBay(sorted) && WellFormed(sorted) && i < |sorted| && sorted[i].slots >= 1
    ensures Before(sorted, i) == SlotsBelow(sorted, sorted[i].bay)
  {
    if i == 0 {
      NothingBelow(sorted, sorted[0].bay);
    } else {
      BeforeIsBelow(sorted[1..], i - 1);
    }
  }

  lemma {:induction false} NothingBelow(towers: seq<Tower>, bay: int)
    requires forall i :: 0 <= i < |towers| ==> towers[i].bay >= bay
    ensures SlotsBelow(towers, bay) == 0
  {
    if towers != [] {
      NothingBelow(towers[1..], bay);
    }
  }

  // ---- the bijection ----

  function Coordinates(towers: seq<Tower>, slot: int): Coordinate {
    Locate(SortByBay(towers), slot, slot)
  }

  lemma ExistsSorted(towers: seq<Tower>, c: Coordinate) returns (i: nat)
    requires Exists(towers, c)
    ensures i < |SortByBay(towers)| && 1 <= c.row <= SortByBay(towers)[i].slots
    ensures c == StorageAt(SortByBay(towers)[i].bay, c.row)
  {
    SortFacts(towers);
    var k :| 0 <= k < |towers| && 1 <= c.row <= towers[k].slots && c == StorageAt(towers[k].bay, c.row);
    assert towers[k] in SortByBay(towers);
    i :| 0 <= i < |SortByBay(towers)| && SortByBay(towers)[i] == towers[k];
  }

  /** Every slot in range has a coordinate that exists, and its number is recovered from it. */
  lemma SlotRecovered(towers: seq<Tower>, slot: int)
    requires WellFormed(towers) && 1 <= slot <= TotalSlots(towers)
    ensures Exists(towers, Coordinates(towers, slot)) && SlotOf(towers, Coordinates(towers, slot)) == slot
  {
    hide SortByBay, SlotsBelow, Locate, Before, TotalSlots, OccupiedBaysDistinct;
    var sorted := SortByBay(towers);
    SortOccupied(towers);
    SortFacts(towers);
    SortSums(towers, 0);
    var i, row := FindRow(sorted, slot);
    LocateRow(sorted, i, row, slot);
    BeforeIsBelow(sorted, i);
    SortSums(towers, sorted[i].bay);
    assert sorted[i] in towers;
    var k :| 0 <= k < |towers| && towers[k] == sorted[i];
    assert 1 <= row <= towers[k].slots;
  }

  /** Every coordinate that exists is the coordinate of exactly its slot, which is in range. */
  lemma CoordinateRecovered(towers: seq<Tower>, c: Coordinate)
    requires WellFormed(towers) && Exists(towers, c)
    ensures 1 <= SlotOf(towers, c) <= TotalSlots(towers) && Coordinates(towers, SlotOf(towers, c)) == c
  {
    hide SortByBay, SlotsBelow, Locate, Before, TotalSlots, OccupiedBaysDistinct;
    var sorted := SortByBay(towers);
    SortOccupied(towers);
    SortFacts(towers);
    SortSums(towers, 0);
    var i := ExistsSorted(towers, c);
    BeforeIsBelow(sorted, i);
    SortSums(towers, sorted[i].bay);
    BeforeBounds(sorted, i);
    LocateRow(sorted, i, c.row, SlotOf(towers, c));
  }

  /** A slot past the end gets a coordinate that names no existing row. */
  lemma FallbackOutside(towers: seq<Tower>, slot: int)
    requires WellFormed(towers) && slot > TotalSlots(towers)
    ensures Coordinates(towers, slot) == StorageAt(1, slot) && !Exists(towers, Coordinates(towers, slot))
  {
    SortOccupied(towers);
    SortSums(towers, 0);
    LocateBeyond(SortByBay(towers), slot, slot);
    if Exists(towers, StorageAt(1, slot)) {
      CoordinateRecovered(towers, StorageAt(1, slot));
      var i := ExistsSorted(towers, StorageAt(1, slot));
      BeforeBounds(SortByBay(towers), i);
    }
  }

  /** Different positive slot numbers never share a coordinate, in range or not. */
  lemma CoordinatesInjective(towers: seq<Tower>, a: int, b: int)
    requires WellFormed(towers) && a >= 1 && b >= 1 && Coordinates(towers, a) == Coordinates(towers, b)
    ensures a == b
  {
    hide Coordinates, Exists, SlotOf, WellFormed;
    if a <= TotalSlots(towers) {
      SlotRecovered(towers, a);
    } else {
      FallbackOutside(towers, a);
    }
    if b <= TotalSlots(towers) {
      SlotRecovered(towers, b);
    } else {
      FallbackOutside(towers, b);
    }
  }

  /** No two positive slot numbers share a coordinate. */
  ghost predicate Injective(towers: seq<Tower>) {
    forall a, b :: a >= 1 && b >= 1 && Coordinates(towers, a) == Coordinates(towers, b) ==> a == b
  }

  /** Without negative counts, the numbering is injective over all positive slots exactly when
      towers that have slots stand in bays of their own. */
  lemma InjectiveExactlyWhen(towers: seq<Tower>)
    requires NonNegative(towers)
    ensures Injective(towers) <==> OccupiedBaysDistinct(towers)
  {
    hide Coordinates, NonNegative;
    if OccupiedBaysDistinct(towers) {
      forall a, b | a >= 1 && b >= 1 && Coordinates(towers, a) == Coordinates(towers, b)
        ensures a == b
      {
        CoordinatesInjective(towers, a, b);
      }
    } else {
      var a, b := SharedBayCollides(towers);
      assert Coordinates(towers, a) == Coordinates(towers, b);
    }
  }

  /** When two towers with slots share a bay, the first slots of both share a coordinate. */
  lemma SharedBayCollides(towers: seq<Tower>) returns (a: int, b: int)
    requires NonNegative(towers) && !OccupiedBaysDistinct(towers)
    ensures 1 <= a < b && Coordinates(towers, a) == Coordinates(towers, b)
  {
    hide SortByBay, Locate, Before;
    var sorted := SortByBay(towers);
    SortOccupied(towers);
    var i: nat, j: nat :|
      i < j < |sorted| && sorted[i].slots >= 1 && sorted[j].slots >= 1 && sorted[i].bay == sorted[j].bay;
    a, b := Before(sorted, i) + 1, Before(sorted, j) + 1;
    LocateRow(sorted, i, 1, a);
    LocateRow(sorted, j, 1, b);
    BeforeBounds(sorted, i);
    BeforeGrows(sorted, i, j);
  }

  lemma {:induction false} BeforeGrows(sorted: seq<Tower>, i: nat, j: nat)
    requires NonNegative(sorted) && i < j < |sorted|
    ensures Before(sorted, i) + sorted[i].slots <= Before(sorted, j)
  {
    if i > 0 {
      BeforeGrows(sorted[1..], i - 1, j - 1);
    } else {
      BeforeBounds(sorted[1..], j - 1);
    }
  }
}
