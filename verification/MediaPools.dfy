/** Media pools (openblade/api/aml_state.py): barcodes are stored in per-pool lists that callers
    may overwrite with anything; a sync pass makes them a partition of part of the media table. */
module MediaPools {
  import opened Names
  import opened PoolIds
  import opened Text
  import opened Wrappers

  /** An element of a stored list: a string, or something else that the sync skips. */
  datatype Item = Name(text: string) | NotText

  /** A stored field of a pool dictionary. */
  datatype Field = Missing | NotAList | Items(items: seq<Item>)

  datatype Pool = Pool(id: string, name: string, stored: Field, barcodes: Field, mediaCount: int)

  // ---- lists of barcodes ----

  function AsItems(names: seq<string>): seq<Item> {
    seq(|names|, i requires 0 <= i < |names| => Name(names[i]))
  }

  function Texts(items: seq<Item>): seq<string> {
    if items == [] then []
    else (if items[0].Name? then [items[0].text] else []) + Texts(items[1..])
  }

  /** The barcodes a pool's list holds. */
  function Held(p: Pool): seq<string> {
    if p.stored.Items? then Texts(p.stored.items) else []
  }

  /** A barcode the sync can keep: not blank, and without surrounding space. */
  predicate Proper(b: string) {
    b != "" && Trimmed(b)
  }

  // ---- the sync pass ----

  /** The list a pool's sync starts from. */
  function RawItems(p: Pool): seq<Item> {
    match p.stored
    case Items(items) => items
    case NotAList => []
    case Missing => if p.barcodes.Items? then p.barcodes.items else []
  }

  /** The barcodes one pool gets: in order, stripped, known, and not taken before. */
  function Claim(raw: seq<Item>, media: set<string>, taken: set<string>): seq<string> {
    if raw == [] then []
    else
      var b := if raw[0].Name? then Trim(raw[0].text) else "";
      if b != "" && b in media && b !in taken
      then [b] + Claim(raw[1..], media, taken + {b})
      else Claim(raw[1..], media, taken)
  }

  function SyncedName(p: Pool): string {
    if Trim(p.name) != "" then Trim(p.name) else p.id
  }

  function SyncedPool(p: Pool, held: seq<string>): Pool {
    Pool(p.id, SyncedName(p), Items(AsItems(held)), Items(AsItems(held)), |held|)
  }

  /** Pools in dictionary order; earlier pools claim first. */
  function SyncFrom(pools: seq<Pool>, media: set<string>, taken: set<string>): seq<Pool> {
    if pools == [] then []
    else
      var held := Claim(RawItems(pools[0]), media, taken);
      [SyncedPool(pools[0], held)] + SyncFrom(pools[1..], media, taken + Elements(held))
  }

  function Sync(pools: seq<Pool>, media: set<string>): seq<Pool> {
    SyncFrom(pools, media, {})
  }

  // ---- the partition ----

  ghost predicate CleanList(names: seq<string>, media: set<string>) {
    Distinct(names) && forall b :: b in names ==> Proper(b) && b in media
  }

  predicate Consistent(p: Pool) {
    && p.stored == Items(AsItems(Held(p)))
    && p.barcodes == p.stored
    && p.mediaCount == |Held(p)|
    && p.name != "" && Trimmed(p.name)
  }

  /** Each list is duplicate-free and within the media table, no barcode is in two pools, and
      `barcodes` and `mediaCount` agree with the list. */
  ghost predicate Partition(pools: seq<Pool>, media: set<string>) {
    && (forall i :: 0 <= i < |pools| ==> Consistent(pools[i]) && CleanList(Held(pools[i]), media))
    && (forall i, j, b :: 0 <= i < j < |pools| && b in Held(pools[i]) ==> b !in Held(pools[j]))
  }

  /** Every pool is stored under a normalized id of its own. */
  ghost predicate Keyed(pools: seq<Pool>) {
    && (forall i :: 0 <= i < |pools| ==> IsSlug(pools[i].id))
    && (forall i, j :: 0 <= i < j < |pools| ==> pools[i].id != pools[j].id)
  }

  lemma {:induction false} TextsAsItems(names: seq<string>)
    ensures Texts(AsItems(names)) == names
  {
    if names != [] {
      assert AsItems(names)[1..] == AsItems(names[1..]);
      TextsAsItems(names[1..]);
    }
  }

  lemma {:induction false} ClaimClean(raw: seq<Item>, media: set<string>, taken: set<string>)
    ensures var held := Claim(raw, media, taken);
      CleanList(held, media) && forall b :: b in held ==> b !in taken
  {
    hide Trim, Trimmed;
    if raw != [] {
      var b := if raw[0].Name? then Trim(raw[0].text) else "";
      ClaimClean(raw[1..], media, taken);
      ClaimClean(raw[1..], media, taken + {b});
    }
  }

  lemma SyncedPoolFacts(p: Pool, held: seq<string>, media: set<string>)
    requires CleanList(held, media) && p.id != ""
    requires Trimmed(p.id)
    ensures var q := SyncedPool(p, held); Held(q) == held && Consistent(q)
  {
    TextsAsItems(held);
  }

  ghost predicate Avoids(pools: seq<Pool>, taken: set<string>) {
    forall i, b :: 0 <= i < |pools| && b in Held(pools[i]) ==> b !in taken
  }

  lemma PartitionCons(p: Pool, rest: seq<Pool>, media: set<string>, taken: set<string>)
    requires Consistent(p) && CleanList(Held(p), media) && Partition(rest, media)
    requires Avoids(rest, taken + Elements(Held(p))) && Avoids([p], taken)
    ensures Partition([p] + rest, media) && Avoids([p] + rest, taken)
  {
    hide Consistent, CleanList, Held;
    var all := [p] + rest;
    forall i | 0 <= i < |all|
      ensures Consistent(all[i]) && CleanList(Held(all[i]), media)
      ensures forall b :: b in Held(all[i]) ==> b !in taken
    {
      assert i == 0 ==> all[i] == [p][0];
      assert i > 0 ==> all[i] == rest[i - 1];
    }
    forall i, j, b | 0 <= i < j < |all| && b in Held(all[i])
      ensures b !in Held(all[j])
    {
      assert all[j] == rest[j - 1];
      assert i > 0 ==> all[i] == rest[i - 1];
    }
  }

  lemma SyncedId(p: Pool, held: seq<string>)
    ensures SyncedPool(p, held).id == p.id
  {
  }

  lemma SyncEmpty(pools: seq<Pool>, media: set<string>, taken: set<string>)
    requires pools == []
    ensures SyncFrom(pools, media, taken) == []
  {
  }

  lemma SyncSplit(pools: seq<Pool>, media: set<string>, taken: set<string>)
    requires pools != []
    ensures var held := Claim(RawItems(pools[0]), media, taken);
      SyncFrom(pools, media, taken)
        == [SyncedPool(pools[0], held)] + SyncFrom(pools[1..], media, taken + Elements(held))
  {
    hide Claim, RawItems, SyncedPool;
  }

  lemma {:induction false} SyncIds(pools: seq<Pool>, media: set<string>, taken: set<string>)
    ensures var synced := SyncFrom(pools, media, taken);
      |synced| == |pools| && forall i :: 0 <= i < |pools| ==> synced[i].id == pools[i].id
  {
    if pools != [] {
      hide Claim, RawItems, SyncedPool, Elements, SyncFrom;
      var held := Claim(RawItems(pools[0]), media, taken);
      SyncSplit(pools, media, taken);
      SyncedId(pools[0], held);
      SyncIds(pools[1..], media, taken + Elements(held));
    } else {
      SyncEmpty(pools, media, taken);
    }
  }

  /** A sync leaves a partition, and takes nothing that was taken before. */
  lemma {:induction false} SyncFromPartition(pools: seq<Pool>, media: set<string>, taken: set<string>)
    requires forall i :: 0 <= i < |pools| ==> IsSlug(pools[i].id)
    ensures Partition(SyncFrom(pools, media, taken), media) && Avoids(SyncFrom(pools, media, taken), taken)
  {
    if pools != [] {
      hide Partition, Avoids, Consistent, CleanList, Claim, IsSlug, Held, SyncedPool, RawItems;
      SyncHead(pools, media, taken);
      var held := Claim(RawItems(pools[0]), media, taken);
      SyncFromPartition(pools[1..], media, taken + Elements(held));
      PartitionCons(SyncedPool(pools[0], held), SyncFrom(pools[1..], media, taken + Elements(held)), media, taken);
    }
  }

  /** The first pool of a sync, and the pools after it. */
  lemma SyncHead(pools: seq<Pool>, media: set<string>, taken: set<string>)
    requires pools != [] && IsSlug(pools[0].id)
    ensures var held := Claim(RawItems(pools[0]), media, taken); var first := SyncedPool(pools[0], held);
      && SyncFrom(pools, media, taken) == [first] + SyncFrom(pools[1..], media, taken + Elements(held))
      && Held(first) == held && Consistent(first) && CleanList(held, media) && Avoids([first], taken)
  {
    hide Claim, RawItems;
    var held := Claim(RawItems(pools[0]), media, taken);
    ClaimClean(RawItems(pools[0]), media, taken);
    SlugTrimmed(pools[0].id);
    SyncedPoolFacts(pools[0], held, media);
  }

  /** After any sync the pools are a partition and keep their ids, in order. */
  lemma SyncPartition(pools: seq<Pool>, media: set<string>)
    requires Keyed(pools)
    ensures Partition(Sync(pools, media), media) && Keyed(Sync(pools, media))
    ensures |Sync(pools, media)| == |pools|
    ensures forall i :: 0 <= i < |pools| ==> Sync(pools, media)[i].id == pools[i].id
  {
    hide Partition, IsSlug, SyncFrom, Avoids;
    SyncFromPartition(pools, media, {});
    SyncIds(pools, media, {});
  }

  lemma SlugTrimmed(id: string)
    requires IsSlug(id)
    ensures id != "" && Trimmed(id)
  {
  }

  // ---- who gets a barcode ----

  /** Some string of the list is `b` up to surrounding space. */
  predicate Asks(raw: seq<Item>, b: string) {
    raw != [] && ((raw[0].Name? && Trim(raw[0].text) == b) || Asks(raw[1..], b))
  }

  predicate Wants(p: Pool, b: string) {
    Asks(RawItems(p), b)
  }

  lemma {:induction false} ClaimMembers(raw: seq<Item>, media: set<string>, taken: set<string>, b: string)
    ensures b in Claim(raw, media, taken) <==> b != "" && b in media && b !in taken && Asks(raw, b)
  {
    hide Trim;
    if raw != [] {
      var first := if raw[0].Name? then Trim(raw[0].text) else "";
      ClaimMembers(raw[1..], media, taken, b);
      ClaimMembers(raw[1..], media, taken + {first}, b);
    }
  }

  /** None of the first `n` pools asks for `b`. */
  predicate NoneWant(pools: seq<Pool>, n: nat, b: string) {
    n == 0 || pools == [] || (!Wants(pools[0], b) && NoneWant(pools[1..], n - 1, b))
  }

  /** A sync gives each known barcode to the first pool, in dictionary order, whose list asks
      for it, and to no other. */
  lemma {:induction false} FirstClaimWins(pools: seq<Pool>, media: set<string>, taken: set<string>, i: nat, b: string)
    requires i < |pools| && forall k :: 0 <= k < |pools| ==> IsSlug(pools[k].id)
    ensures |SyncFrom(pools, media, taken)| == |pools|
    ensures b in Held(SyncFrom(pools, media, taken)[i]) <==>
      b != "" && b in media && b !in taken && Wants(pools[i], b) && NoneWant(pools, i, b)
  {
    hide Claim, RawItems, SyncedPool, Consistent, CleanList, Avoids, Held, SyncFrom, Asks, IsSlug;
    var held := Claim(RawItems(pools[0]), media, taken);
    SyncHead(pools, media, taken);
    ClaimMembers(RawItems(pools[0]), media, taken, b);
    SyncIds(pools[1..], media, taken + Elements(held));
    if i > 0 {
      FirstClaimWins(pools[1..], media, taken + Elements(held), i - 1, b);
    }
  }

  // ---- syncing lists that are already clean ----

  /** The lists the pools ask for are clean, disjoint and free of `taken`. */
  ghost predicate CleanLists(lists: seq<seq<string>>, media: set<string>, taken: set<string>) {
    && (forall i :: 0 <= i < |lists| ==> CleanList(lists[i], media))
    && (forall i, b :: 0 <= i < |lists| && b in lists[i] ==> b !in taken)
    && (forall i, j, b :: 0 <= i < j < |lists| && b in lists[i] ==> b !in lists[j])
  }

  /** Every pool asks for its list. */
  ghost predicate Ask(pools: seq<Pool>, lists: seq<seq<string>>) {
    |lists| == |pools| && forall i :: 0 <= i < |pools| ==> RawItems(pools[i]) == AsItems(lists[i])
  }

  /** What a clean list gets when only `known` barcodes are left: the known ones, in order. */
  lemma {:induction false} ClaimKnown(names: seq<string>, media: set<string>, gone: set<string>, taken: set<string>)
    requires CleanList(names, media) && forall b :: b in names ==> b !in taken
    ensures Claim(AsItems(names), media - gone, taken) == Without(names, gone)
  {
    if names != [] {
      assert AsItems(names)[1..] == AsItems(names[1..]);
      assert names[0] in names;
      var now := if names[0] in gone then taken else taken + {names[0]};
      forall b | b in names[1..]
        ensures b in names && b !in now
      {
        var k :| 0 <= k < |names[1..]| && names[1..][k] == b;
        assert names[k + 1] == b;
      }
      assert CleanList(names[1..], media);
      ClaimKnown(names[1..], media, gone, now);
    }
  }

  lemma WithoutClean(names: seq<string>, drop: set<string>, media: set<string>)
    requires CleanList(names, media)
    ensures CleanList(Without(names, drop), media)
  {
    hide Proper;
    WithoutFacts(names, drop);
  }

  lemma CleanListsTail(lists: seq<seq<string>>, media: set<string>, taken: set<string>, held: seq<string>)
    requires lists != [] && CleanLists(lists, media, taken)
    requires forall b :: b in held ==> b in lists[0]
    ensures CleanLists(lists[1..], media, taken + Elements(held))
  {
    hide CleanList;
    forall i, b | 0 <= i < |lists[1..]| && b in lists[1..][i]
      ensures b !in taken + Elements(held)
    {
      assert lists[1..][i] == lists[i + 1];
    }
  }

  /** A sync gives each pool the part of its clean list that is still known. */
  lemma {:induction false} SyncKnown(
      pools: seq<Pool>, lists: seq<seq<string>>, media: set<string>, gone: set<string>, taken: set<string>)
    requires Ask(pools, lists) && CleanLists(lists, media, taken)
    ensures var synced := SyncFrom(pools, media - gone, taken);
      |synced| == |pools|
      && forall i :: 0 <= i < |pools| ==> synced[i] == SyncedPool(pools[i], Without(lists[i], gone))
  {
    if pools != [] {
      hide Claim, RawItems, SyncedPool, CleanList, Without, SyncFrom, AsItems;
      var held := Without(lists[0], gone);
      assert Claim(RawItems(pools[0]), media - gone, taken) == held by {
        ClaimKnown(lists[0], media, gone, taken);
      }
      forall b | b in held
        ensures b in lists[0]
      {
        WithoutMembers(lists[0], gone, b);
      }
      CleanListsTail(lists, media, taken, held);
      AskTail(pools, lists);
      hide Ask, CleanLists;
      SyncKnown(pools[1..], lists[1..], media, gone, taken + Elements(held));
      SyncSplit(pools, media - gone, taken);
      var rest := SyncFrom(pools[1..], media - gone, taken + Elements(held));
      forall i | 0 <= i < |pools|
        ensures ([SyncedPool(pools[0], held)] + rest)[i] == SyncedPool(pools[i], Without(lists[i], gone))
      {
        if i > 0 {
          assert rest[i - 1] == SyncedPool(pools[1..][i - 1], Without(lists[1..][i - 1], gone));
        }
      }
    }
  }

  lemma AskTail(pools: seq<Pool>, lists: seq<seq<string>>)
    requires Ask(pools, lists) && pools != []
    ensures Ask(pools[1..], lists[1..])
  {
    hide RawItems, AsItems;
  }

  function Lists(pools: seq<Pool>): seq<seq<string>> {
    seq(|pools|, i requires 0 <= i < |pools| => Held(pools[i]))
  }

  lemma PartitionLists(pools: seq<Pool>, media: set<string>)
    requires Partition(pools, media)
    ensures Ask(pools, Lists(pools)) && CleanLists(Lists(pools), media, {})
  {
    hide Held, CleanList;
  }

  lemma SyncedConsistent(p: Pool)
    requires Consistent(p)
    ensures SyncedPool(p, Held(p)) == p
  {
  }

  /** Syncing a partition changes nothing; in particular a second sync changes nothing. */
  lemma SyncFixed(pools: seq<Pool>, media: set<string>)
    requires Partition(pools, media)
    ensures Sync(pools, media) == pools
  {
    hide CleanLists, SyncFrom, SyncedPool, Held, Consistent;
    PartitionLists(pools, media);
    assert media - {} == media;
    SyncKnown(pools, Lists(pools), media, {}, {});
    forall i | 0 <= i < |pools|
      ensures Sync(pools, media)[i] == pools[i]
    {
      WithoutNothing(Held(pools[i]));
      SyncedConsistent(pools[i]);
    }
  }

  lemma SyncIdempotent(pools: seq<Pool>, media: set<string>)
    requires Keyed(pools)
    ensures Sync(Sync(pools, media), media) == Sync(pools, media)
  {
    SyncPartition(pools, media);
    SyncFixed(Sync(pools, media), media);
  }

  /** Removing media takes exactly the removed barcodes out of the pools. */
  lemma RemovalEffect(pools: seq<Pool>, media: set<string>, gone: set<string>, i: nat)
    requires Partition(pools, media) && Keyed(pools) && i < |pools|
    ensures |Sync(pools, media - gone)| == |pools|
    ensures Held(Sync(pools, media - gone)[i]) == Without(Held(pools[i]), gone)
  {
    hide CleanLists, SyncFrom, Held, Consistent;
    PartitionLists(pools, media);
    SyncKnown(pools, Lists(pools), media, gone, {});
    HeldSynced(pools[i], Without(Held(pools[i]), gone));
  }

  lemma HeldSynced(p: Pool, held: seq<string>)
    ensures Held(SyncedPool(p, held)) == held
  {
    TextsAsItems(held);
  }

  // ---- assigning ----

  /** The requested barcodes that exist, each once, in order of first mention. */
  function Requested(barcodes: seq<string>, media: set<string>): seq<string> {
    if barcodes == [] then []
    else
      var init, last := Requested(barcodes[..|barcodes| - 1], media), barcodes[|barcodes| - 1];
      if last in media && last !in init then init + [last] else init
  }

  lemma {:induction false} RequestedFacts(barcodes: seq<string>, media: set<string>)
    ensures Distinct(Requested(barcodes, media))
    ensures forall b :: b in Requested(barcodes, media) <==> b in barcodes && b in media
  {
    if barcodes != [] {
      RequestedFacts(barcodes[..|barcodes| - 1], media);
      assert barcodes == barcodes[..|barcodes| - 1] + [barcodes[|barcodes| - 1]];
    }
  }

  /** They keep the order in which the request first mentions them. */
  lemma {:induction false} RequestedInOrder(barcodes: seq<string>, media: set<string>, i: nat, j: nat) returns (k: nat)
    requires i < j < |Requested(barcodes, media)|
    ensures k < |barcodes| && barcodes[k] == Requested(barcodes, media)[i]
    ensures Requested(barcodes, media)[j] !in barcodes[..k + 1]
  {
    var n := |barcodes| - 1;
    var init := Requested(barcodes[..n], media);
    RequestedFacts(barcodes[..n], media);
    if j < |init| {
      k := RequestedInOrder(barcodes[..n], media, i, j);
      assert barcodes[..n][..k + 1] == barcodes[..k + 1];
    } else {
      assert init[i] in init;
      k :| 0 <= k < n && barcodes[k] == init[i];
      assert forall x :: x in barcodes[..k + 1] ==> x in barcodes[..n];
    }
  }

  function Relisted(p: Pool, names: seq<string>): Pool {
    p.(stored := Items(AsItems(names)))
  }

  /** The list a pool is left with once `moved` is taken everywhere and given to `id`. */
  function ListAfterMove(p: Pool, id: string, moved: seq<string>): seq<string> {
    Without(Held(p), Elements(moved)) + if p.id == id then moved else []
  }

  function MovedPools(pools: seq<Pool>, id: string, moved: seq<string>): seq<Pool> {
    seq(|pools|, i requires 0 <= i < |pools| => Relisted(pools[i], ListAfterMove(pools[i], id, moved)))
  }

  function Assign(pools: seq<Pool>, media: set<string>, id: string, barcodes: seq<string>): seq<Pool> {
    var moved := Requested(barcodes, media);
    if moved == [] then Sync(pools, media) else Sync(MovedPools(pools, id, moved), media)
  }

  function MovedLists(pools: seq<Pool>, id: string, moved: seq<string>): seq<seq<string>> {
    seq(|pools|, i requires 0 <= i < |pools| => ListAfterMove(pools[i], id, moved))
  }

  lemma ListAfterMoveClean(p: Pool, id: string, moved: seq<string>, media: set<string>)
    requires CleanList(Held(p), media) && CleanList(moved, media)
    ensures CleanList(ListAfterMove(p, id, moved), media)
  {
    hide Held;
    var kept := Without(Held(p), Elements(moved));
    WithoutClean(Held(p), Elements(moved), media);
    forall b | b in kept
      ensures b !in moved
    {
      WithoutMembers(Held(p), Elements(moved), b);
    }
    CleanConcat(kept, moved, media);
    assert kept + [] == kept;
  }

  lemma CleanConcat(a: seq<string>, b: seq<string>, media: set<string>)
    requires CleanList(a, media) && CleanList(b, media) && forall x :: x in a ==> x !in b
    ensures CleanList(a + b, media)
  {
    hide Proper;
    var all := a + b;
    forall i, j | 0 <= i < j < |all|
      ensures all[i] != all[j]
    {
      if i < |a| <= j {
        assert all[i] in a && all[j] in b;
      }
    }
  }

  lemma ListAfterMoveMembers(p: Pool, id: string, moved: seq<string>, b: string)
    ensures b in ListAfterMove(p, id, moved) <==> if b in moved then p.id == id else b in Held(p)
  {
    hide Held;
    WithoutMembers(Held(p), Elements(moved), b);
  }

  lemma MovedClean(pools: seq<Pool>, media: set<string>, id: string, moved: seq<string>)
    requires Partition(pools, media) && Keyed(pools) && CleanList(moved, media)
    ensures CleanLists(MovedLists(pools, id, moved), media, {})
    ensures Ask(MovedPools(pools, id, moved), MovedLists(pools, id, moved))
  {
    hide Held, CleanList, ListAfterMove, Consistent;
    var lists := MovedLists(pools, id, moved);
    forall i | 0 <= i < |lists|
      ensures CleanList(lists[i], media)
    {
      ListAfterMoveClean(pools[i], id, moved, media);
    }
    forall i, j, b | 0 <= i < j < |lists| && b in lists[i]
      ensures b !in lists[j]
    {
      ListAfterMoveMembers(pools[i], id, moved, b);
      ListAfterMoveMembers(pools[j], id, moved, b);
    }
    assert forall i :: 0 <= i < |pools| ==> RawItems(MovedPools(pools, id, moved)[i]) == AsItems(lists[i]);
  }

  /** When every requested barcode that exists is proper, assigning leaves each pool with what
      it held less the request, and the target with the request added in order. */
  lemma AssignLists(pools: seq<Pool>, media: set<string>, id: string, barcodes: seq<string>, i: nat)
    requires Partition(pools, media) && Keyed(pools) && i < |pools|
    requires forall b :: b in barcodes && b in media ==> Proper(b)
    ensures |Assign(pools, media, id, barcodes)| == |pools|
    ensures Held(Assign(pools, media, id, barcodes)[i]) == ListAfterMove(pools[i], id, Requested(barcodes, media))
    ensures Held(Assign(pools, media, id, barcodes)[i]) ==
      Without(Held(pools[i]), set b | b in barcodes && b in media)
      + if pools[i].id == id then Requested(barcodes, media) else []
  {
    hide Held, Consistent, SyncFrom, CleanLists, Requested, Without, Proper;
    var moved := Requested(barcodes, media);
    RequestedFacts(barcodes, media);
    assert Elements(moved) == set b | b in barcodes && b in media;
    if moved == [] {
      SyncFixed(pools, media);
      assert Elements(moved) == {};
      WithoutNothing(Held(pools[i]));
    } else {
      MovedClean(pools, media, id, moved);
      assert media - {} == media;
      SyncKnown(MovedPools(pools, id, moved), MovedLists(pools, id, moved), media, {}, {});
      WithoutNothing(ListAfterMove(pools[i], id, moved));
      HeldSynced(MovedPools(pools, id, moved)[i], ListAfterMove(pools[i], id, moved));
    }
  }

  /** Assigning moves exactly the requested barcodes that exist into the target and leaves
      every other barcode where it was. */
  ghost predicate MovesExactly(
      before: seq<Pool>, after: seq<Pool>, media: set<string>, id: string, barcodes: seq<string>)
  {
    && |after| == |before|
    && forall i, b :: 0 <= i < |after| ==>
         (b in Held(after[i]) <==>
          if b in barcodes && b in media then before[i].id == id else b in Held(before[i]))
  }

  /** It does so exactly when each requested barcode that exists is proper; one that is blank or
      carries surrounding space is dropped by the sync instead. */
  lemma AssignMovesExactlyWhen(pools: seq<Pool>, media: set<string>, id: string, barcodes: seq<string>, target: nat)
    requires Partition(pools, media) && Keyed(pools) && target < |pools| && pools[target].id == id
    ensures MovesExactly(pools, Assign(pools, media, id, barcodes), media, id, barcodes) <==>
      forall b :: b in barcodes && b in media ==> Proper(b)
  {
    hide Held, Requested, Proper, SyncFrom, ListAfterMove, Consistent;
    var after := Assign(pools, media, id, barcodes);
    if forall b :: b in barcodes && b in media ==> Proper(b) {
      AssignLists(pools, media, id, barcodes, 0);
      RequestedFacts(barcodes, media);
      forall i, b | 0 <= i < |after|
        ensures b in Held(after[i]) <==>
          if b in barcodes && b in media then pools[i].id == id else b in Held(pools[i])
      {
        AssignLists(pools, media, id, barcodes, i);
        ListAfterMoveMembers(pools[i], id, Requested(barcodes, media), b);
      }
    } else if MovesExactly(pools, after, media, id, barcodes) {
      var b :| b in barcodes && b in media && !Proper(b);
      AssignPartition(pools, media, id, barcodes);
      assert b in Held(after[target]);
    }
  }

  /** A media entry whose barcode carries a space, requested as it stands, ends in no pool. */
  lemma UntrimmedNotMoved()
    ensures var media, pools, barcodes := {" X"}, [Pool("p", "p", Items([]), Items([]), 0)], [" X"];
      && Partition(pools, media) && Keyed(pools)
      && !MovesExactly(pools, Assign(pools, media, "p", barcodes), media, "p", barcodes)
  {
    hide Assign, MovesExactly;
    var media, pools, barcodes := {" X"}, [Pool("p", "p", Items([]), Items([]), 0)], [" X"];
    assert Texts([]) == [] && AsItems([]) == [];
    assert Held(pools[0]) == [];
    assert !Proper(barcodes[0]) && barcodes[0] in barcodes && barcodes[0] in media;
    AssignMovesExactlyWhen(pools, media, "p", barcodes, 0);
  }

  lemma AssignPartition(pools: seq<Pool>, media: set<string>, id: string, barcodes: seq<string>)
    requires Keyed(pools)
    ensures Partition(Assign(pools, media, id, barcodes), media) && Keyed(Assign(pools, media, id, barcodes))
    ensures var after := Assign(pools, media, id, barcodes);
      |after| == |pools| && forall i :: 0 <= i < |pools| ==> after[i].id == pools[i].id
  {
    hide Partition, SyncFrom, IsSlug;
    var moved := Requested(barcodes, media);
    SyncPartition(pools, media);
    SyncPartition(MovedPools(pools, id, moved), media);
  }

  // ---- the other operations ----

  function UnassignedList(p: Pool, id: string, barcodes: set<string>): seq<string> {
    if p.id == id then Without(Held(p), barcodes) else Held(p)
  }

  function UnassignedPool(p: Pool, id: string, barcodes: set<string>): Pool {
    if p.id == id then Relisted(p, Without(Held(p), barcodes)) else p
  }

  function UnassignedPools(pools: seq<Pool>, id: string, barcodes: set<string>): seq<Pool> {
    seq(|pools|, i requires 0 <= i < |pools| => UnassignedPool(pools[i], id, barcodes))
  }

  function Unassign(pools: seq<Pool>, media: set<string>, id: string, barcodes: set<string>): seq<Pool> {
    Sync(UnassignedPools(pools, id, barcodes), media)
  }

  lemma UnassignedListFacts(p: Pool, id: string, barcodes: set<string>, media: set<string>)
    requires Consistent(p) && CleanList(Held(p), media)
    ensures CleanList(UnassignedList(p, id, barcodes), media)
    ensures forall b :: b in UnassignedList(p, id, barcodes) ==> b in Held(p)
    ensures RawItems(UnassignedPool(p, id, barcodes)) == AsItems(UnassignedList(p, id, barcodes))
  {
    hide Held, CleanList;
    WithoutClean(Held(p), barcodes, media);
    forall b | b in UnassignedList(p, id, barcodes)
      ensures b in Held(p)
    {
      WithoutMembers(Held(p), barcodes, b);
    }
  }

  lemma UnassignAsks(pools: seq<Pool>, media: set<string>, id: string, barcodes: set<string>)
      returns (lists: seq<seq<string>>)
    requires Partition(pools, media)
    ensures CleanLists(lists, media, {}) && Ask(UnassignedPools(pools, id, barcodes), lists) && |lists| == |pools|
    ensures forall i :: 0 <= i < |pools| ==> lists[i] == UnassignedList(pools[i], id, barcodes)
  {
    hide Held, CleanList, Consistent, RawItems, UnassignedPool, UnassignedList, AsItems;
    lists := seq(|pools|, i requires 0 <= i < |pools| => UnassignedList(pools[i], id, barcodes));
    forall i | 0 <= i < |pools|
      ensures CleanList(lists[i], media)
      ensures forall b :: b in lists[i] ==> b in Held(pools[i])
      ensures RawItems(UnassignedPools(pools, id, barcodes)[i]) == AsItems(lists[i])
    {
      UnassignedListFacts(pools[i], id, barcodes, media);
    }
  }

  /** Unassigning takes exactly the named barcodes out of the one pool. */
  lemma UnassignEffect(pools: seq<Pool>, media: set<string>, id: string, barcodes: set<string>, i: nat)
    requires Partition(pools, media) && i < |pools|
    ensures |Unassign(pools, media, id, barcodes)| == |pools|
    ensures Held(Unassign(pools, media, id, barcodes)[i]) ==
      if pools[i].id == id then Without(Held(pools[i]), barcodes) else Held(pools[i])
  {
    hide Held, CleanLists, Partition, SyncFrom, Without, SyncedPool, UnassignedPool, Ask;
    var lists := UnassignAsks(pools, media, id, barcodes);
    var raw := UnassignedPools(pools, id, barcodes);
    assert media - {} == media;
    SyncKnown(raw, lists, media, {}, {});
    WithoutNothing(lists[i]);
    HeldSynced(raw[i], lists[i]);
  }

  /** A new pool gets what it asks for and nobody holds; the other pools keep what they hold. */
  lemma CreateEffect(pools: seq<Pool>, media: set<string>, p: Pool, i: nat, b: string)
    requires Partition(pools, media) && Keyed(pools) && Keyed(pools + [p]) && i <= |pools|
    ensures |Sync(pools + [p], media)| == |pools| + 1
    ensures b in Held(Sync(pools + [p], media)[i]) <==>
      if i < |pools| then b in Held(pools[i])
      else b != "" && b in media && Wants(p, b) && forall j :: 0 <= j < |pools| ==> b !in Held(pools[j])
  {
    hide Held, SyncFrom, Wants, Consistent, CleanList, IsSlug;
    forall j | 0 <= j < |pools|
      ensures Wants(pools[j], b) <==> b in Held(pools[j])
      ensures b in Held(pools[j]) ==> b != "" && b in media
    {
      HoldsWhatItWants(pools[j], media, b);
    }
    var all := pools + [p];
    FirstClaimWins(all, media, {}, i, b);
    NoneWantMeans(all, i, b);
    assert forall j :: 0 <= j < |pools| ==> all[j] == pools[j];
    if i < |pools| && b in Held(pools[i]) {
      OnePoolHolds(pools, media, i, b);
    }
  }

  lemma HoldsWhatItWants(p: Pool, media: set<string>, b: string)
    requires Consistent(p) && CleanList(Held(p), media)
    ensures Wants(p, b) <==> b in Held(p)
    ensures b in Held(p) ==> b != "" && b in media
  {
    hide Held;
    assert RawItems(p) == AsItems(Held(p));
    AsksClean(Held(p), b);
  }

  lemma {:induction false} AsksClean(names: seq<string>, b: string)
    requires forall x :: x in names ==> Proper(x)
    ensures Asks(AsItems(names), b) <==> b in names
  {
    if names != [] {
      assert names[0] in names;
      assert AsItems(names)[1..] == AsItems(names[1..]);
      AsksClean(names[1..], b);
    }
  }

  lemma {:induction false} NoneWantMeans(pools: seq<Pool>, n: nat, b: string)
    requires n <= |pools|
    ensures NoneWant(pools, n, b) <==> forall j :: 0 <= j < n ==> !Wants(pools[j], b)
  {
    hide Wants;
    if n > 0 {
      NoneWantMeans(pools[1..], n - 1, b);
      assert forall j :: 0 < j < n ==> pools[j] == pools[1..][j - 1];
      assert forall j :: 0 <= j < n - 1 ==> pools[1..][j] == pools[j + 1];
    }
  }

  lemma MoreMedia(pools: seq<Pool>, media: set<string>, added: set<string>)
    requires Partition(pools, media)
    ensures Partition(pools, media + added)
  {
  }

  // ---- the store ----

  lemma ClaimStep(raw: seq<Item>, i: nat, media: set<string>, taken: set<string>)
    requires i < |raw|
    ensures var b := if raw[i].Name? then Trim(raw[i].text) else "";
      Claim(raw[i..], media, taken) ==
        if b != "" && b in media && b !in taken
        then [b] + Claim(raw[i + 1..], media, taken + {b}) else Claim(raw[i + 1..], media, taken)
  {
    hide Trim;
    assert raw[i..][0] == raw[i] && raw[i..][1..] == raw[i + 1..];
  }

  lemma ClaimNothing(raw: seq<Item>, media: set<string>, taken: set<string>)
    requires raw == []
    ensures Claim(raw, media, taken) == []
  {
  }

  lemma SyncStep(pools: seq<Pool>, i: nat, media: set<string>, taken: set<string>)
    requires i < |pools|
    ensures var held := Claim(RawItems(pools[i]), media, taken);
      SyncFrom(pools[i..], media, taken)
        == [SyncedPool(pools[i], held)] + SyncFrom(pools[i + 1..], media, taken + Elements(held))
  {
    hide SyncFrom;
    SyncSplit(pools[i..], media, taken);
    assert pools[i..][0] == pools[i] && pools[i..][1..] == pools[i + 1..];
  }

  lemma KeyedAppend(pools: seq<Pool>, p: Pool)
    requires Keyed(pools) && IsSlug(p.id) && forall i :: 0 <= i < |pools| ==> pools[i].id != p.id
    ensures Keyed(pools + [p])
  {
    hide IsSlug;
  }

  lemma KeyedUpdate(pools: seq<Pool>, at: nat, p: Pool)
    requires Keyed(pools) && at < |pools| && p.id == pools[at].id
    ensures Keyed(pools[at := p])
  {
    hide IsSlug;
  }

  lemma KeyedMoved(pools: seq<Pool>, id: string, moved: seq<string>)
    requires Keyed(pools)
    ensures Keyed(MovedPools(pools, id, moved))
  {
    hide IsSlug, ListAfterMove;
  }

  /** Names are compared stripped and without regard to case. */
  predicate SameName(a: string, b: string) {
    Lower(Trim(a)) == Lower(Trim(b))
  }

  predicate NameTaken(pools: seq<Pool>, except: int, name: string) {
    exists i :: 0 <= i < |pools| && i != except && SameName(pools[i].name, name)
  }

  method FindName(pools: seq<Pool>, except: int, name: string) returns (taken: bool)
    ensures taken <==> NameTaken(pools, except, name)
  {
    hide SameName;
    for i := 0 to |pools|
      invariant forall k :: 0 <= k < i && k != except ==> !SameName(pools[k].name, name)
    {
      if i != except && SameName(pools[i].name, name) {
        return true;
      }
    }
    taken := false;
  }

  lemma OnePoolHolds(pools: seq<Pool>, media: set<string>, i: nat, b: string)
    requires Partition(pools, media) && i < |pools| && b in Held(pools[i])
    ensures forall j :: 0 <= j < |pools| && j != i ==> b !in Held(pools[j])
  {
    hide Held, Consistent, CleanList;
  }

  class MediaStore {
    var media: set<string>
    var pools: seq<Pool>

    ghost predicate Valid()
      reads this
    {
      Keyed(pools) && Partition(pools, media)
    }

    constructor (pools: seq<Pool>, media: set<string>)
      requires Keyed(pools)
      requires forall i :: 0 <= i < |pools| ==> Consistent(pools[i]) && Held(pools[i]) == []
      ensures Valid() && this.pools == pools && this.media == media
    {
      this.pools, this.media := pools, media;
    }

    /** The inner loop of the sync: strips, filters and claims one pool's barcodes. */
    method ClaimBarcodes(raw: seq<Item>, taken: set<string>) returns (normalized: seq<string>, claimed: set<string>)
      ensures normalized == Claim(raw, media, taken)
      ensures claimed == taken + Elements(normalized)
    {
      hide Trim, Claim;
      normalized, claimed := [], taken;
      for i := 0 to |raw|
        invariant Claim(raw, media, taken) == normalized + Claim(raw[i..], media, claimed)
        invariant claimed == taken + Elements(normalized)
      {
        ClaimStep(raw, i, media, claimed);
        if raw[i].Name? {
          var b := Trim(raw[i].text);
          if b != "" && b in media && b !in claimed {
            assert normalized + ([b] + Claim(raw[i + 1..], media, claimed + {b}))
              == (normalized + [b]) + Claim(raw[i + 1..], media, claimed + {b});
            assert Elements(normalized + [b]) == Elements(normalized) + {b};
            normalized := normalized + [b];
            claimed := claimed + {b};
          }
        }
      }
      ClaimNothing(raw[|raw|..], media, claimed);
    }

    /** Keys do not change here: every id in the table is already normalized. */
    method SyncAmlMediaCounts()
      requires Keyed(pools)
      modifies this`pools
      ensures pools == Sync(old(pools), media) && Valid()
    {
      hide SyncFrom, Claim, SyncedPool, RawItems, Partition, IsSlug, Slug;
      var before := pools;
      var synced: seq<Pool> := [];
      var taken: set<string> := {};
      for i := 0 to |before|
        invariant pools == before
        invariant Sync(before, media) == synced + SyncFrom(before[i..], media, taken)
      {
        SlugFixed(before[i].id);
        var held, claimed := ClaimBarcodes(RawItems(before[i]), taken);
        SyncStep(before, i, media, taken);
        assert synced + ([SyncedPool(before[i], held)] + SyncFrom(before[i + 1..], media, claimed))
          == (synced + [SyncedPool(before[i], held)]) + SyncFrom(before[i + 1..], media, claimed);
        synced := synced + [SyncedPool(before[i], held)];
        taken := claimed;
      }
      SyncEmpty(before[|before|..], media, taken);
      SyncPartition(before, media);
      pools := synced;
    }

    method AssignAmlMediaToPool(poolId: string, barcodes: seq<string>, generated: string) returns (found: bool)
      requires Valid()
      modifies this`pools
      ensures Valid()
      ensures var id := Normalize(poolId, generated);
        && (found <==> FindPool(old(pools), id) < |old(pools)|)
        && pools == if found then Assign(old(pools), media, id, barcodes) else old(pools)
    {
      hide Normalize, Partition, Requested, MovedPools, SyncFrom;
      var id := Normalize(poolId, generated);
      if FindPool(pools, id) == |pools| {
        return false;
      }
      var moved := Requested(barcodes, media);
      if moved != [] {
        KeyedMoved(pools, id, moved);
        pools := MovedPools(pools, id, moved);
      }
      SyncAmlMediaCounts();
      found := true;
    }

    method UnassignAmlMediaFromPool(poolId: string, barcodes: set<string>, generated: string) returns (found: bool)
      requires Valid()
      modifies this`pools
      ensures Valid()
      ensures var id := Normalize(poolId, generated);
        && (found <==> FindPool(old(pools), id) < |old(pools)|)
        && pools == if found then Unassign(old(pools), media, id, barcodes) else old(pools)
    {
      var id := Normalize(poolId, generated);
      var at := FindPool(pools, id);
      if at == |pools| {
        return false;
      }
      KeyedUpdate(pools, at, Relisted(pools[at], Without(Held(pools[at]), barcodes)));
      pools := pools[at := Relisted(pools[at], Without(Held(pools[at]), barcodes))];
      assert pools == UnassignedPools(old(pools), id, barcodes);
      SyncAmlMediaCounts();
      found := true;
    }

    /** Also `delete_aml_media`, with one barcode. */
    method ExportAmlMedia(barcodes: set<string>)
      requires Valid()
      modifies this
      ensures Valid() && media == old(media) - barcodes && pools == Sync(old(pools), media)
    {
      media := media - barcodes;
      SyncAmlMediaCounts();
    }

    method ImportAmlMedia(barcodes: set<string>)
      requires Valid()
      modifies this
      ensures Valid() && media == old(media) + barcodes && pools == old(pools)
    {
      MoreMedia(pools, media, barcodes);
      media := media + barcodes;
      SyncFixed(pools, media);
      SyncAmlMediaCounts();
    }

    /** `name` is the requested name, or None when the request has none. */
    method CreateAmlMediaPool(poolId: string, name: Option<string>, listed: Field, generated: string)
      returns (created: bool)
      requires Valid() && IsSlug(generated)
      modifies this`pools
      ensures Valid()
      ensures var id := Normalize(poolId, generated);
        && (created <==>
              FindPool(old(pools), id) == |old(pools)|
              && !NameTaken(old(pools), -1, if name.Some? then name.value else ""))
        && pools == if created then Sync(old(pools) + [NewPool(id, name, listed)], media) else old(pools)
    {
      hide IsSlug, Partition, Normalize, NewPool, SyncFrom, NameTaken;
      var id := Normalize(poolId, generated);
      if FindPool(pools, id) < |pools| {
        return false;
      }
      var taken := FindName(pools, -1, if name.Some? then name.value else "");
      if taken {
        return false;
      }
      NormalizeFixed(poolId, generated, generated);
      NewPoolId(id, name, listed);
      KeyedAppend(pools, NewPool(id, name, listed));
      pools := pools + [NewPool(id, name, listed)];
      SyncAmlMediaCounts();
      created := true;
    }

    /** Fields given as None stay; the lists may be overwritten with anything. */
    method UpdateAmlMediaPool(
        poolId: string, name: Option<string>, listed: Option<Field>, barcodes: Option<Field>, generated: string)
      returns (updated: bool)
      requires Valid()
      modifies this`pools
      ensures Valid()
      ensures var before := old(pools); var at := FindPool(before, Normalize(poolId, generated));
        && (updated <==> at < |before| && !NameTaken(before, at, NextName(before[at], name)))
        && pools == if updated then Sync(before[at := Overwritten(before[at], name, listed, barcodes)], media)
                    else before
    {
      hide Partition, Normalize, NextName, SyncFrom, NameTaken;
      var at := FindPool(pools, Normalize(poolId, generated));
      if at == |pools| {
        return false;
      }
      var taken := FindName(pools, at, NextName(pools[at], name));
      if taken {
        return false;
      }
      KeyedUpdate(pools, at, Overwritten(pools[at], name, listed, barcodes));
      pools := pools[at := Overwritten(pools[at], name, listed, barcodes)];
      SyncAmlMediaCounts();
      updated := true;
    }

    method DeleteAmlMediaPool(poolId: string, generated: string) returns (found: bool)
      requires Valid()
      modifies this`pools
      ensures Valid()
      ensures var id := Normalize(poolId, generated);
        var at := FindPool(old(pools), id);
        && (found <==> at < |old(pools)|)
        && pools == if found then old(pools)[..at] + old(pools)[at + 1..] else old(pools)
    {
      hide Normalize, Partition;
      var at := FindPool(pools, Normalize(poolId, generated));
      if at == |pools| {
        return false;
      }
      PartitionRemove(pools, media, at);
      pools := pools[..at] + pools[at + 1..];
      found := true;
    }

    /** The name of the pool that holds the barcode, if one does. */
    method FindAmlMediaPoolName(barcode: string) returns (name: Option<string>)
      requires Valid()
      modifies this`pools
      ensures Valid() && pools == old(pools)
      ensures name.None? ==> forall i :: 0 <= i < |pools| ==> barcode !in Held(pools[i])
      ensures forall i :: 0 <= i < |pools| && barcode in Held(pools[i]) ==> name == Some(pools[i].name)
    {
      hide Partition, Held, SyncFrom;
      SyncFixed(pools, media);
      SyncAmlMediaCounts();
      for i := 0 to |pools|
        invariant forall k :: 0 <= k < i ==> barcode !in Held(pools[k])
      {
        if barcode in Held(pools[i]) {
          OnePoolHolds(pools, media, i, barcode);
          return Some(pools[i].name);
        }
      }
      name := None;
    }
  }

  function FindPool(pools: seq<Pool>, id: string): (i: nat)
    ensures i <= |pools|
    ensures i < |pools| ==> pools[i].id == id
    ensures i == |pools| ==> forall k :: 0 <= k < |pools| ==> pools[k].id != id
  {
    if pools == [] || pools[0].id == id then 0 else 1 + FindPool(pools[1..], id)
  }

  /** The stripped, non-blank strings of a list. */
  function Stripped(items: seq<Item>): seq<string> {
    if items == [] then []
    else (if items[0].Name? && Trim(items[0].text) != "" then [Trim(items[0].text)] else []) + Stripped(items[1..])
  }

  /** `_build_aml_media_pool` for the fields of the model. */
  function NewPool(id: string, name: Option<string>, listed: Field): Pool {
    var names := if listed.Items? then Stripped(listed.items) else [];
    var shown := if name.Some? && Trim(name.value) != "" then Trim(name.value) else id;
    Pool(id, shown, Items(AsItems(names)), Items(AsItems(names)), |names|)
  }

  lemma NewPoolId(id: string, name: Option<string>, listed: Field)
    ensures NewPool(id, name, listed).id == id
  {
  }

  function NextName(p: Pool, name: Option<string>): string {
    if name.Some? && Trim(name.value) != "" then Trim(name.value)
    else if name.None? && Trim(p.name) != "" then Trim(p.name)
    else p.name
  }

  function Overwritten(p: Pool, name: Option<string>, listed: Option<Field>, barcodes: Option<Field>): Pool {
    p.(name := NextName(p, name),
       stored := if listed.Some? then listed.value else p.stored,
       barcodes := if barcodes.Some? then barcodes.value else p.barcodes)
  }

  lemma PartitionRemove(pools: seq<Pool>, media: set<string>, at: nat)
    requires Keyed(pools) && Partition(pools, media) && at < |pools|
    ensures Keyed(pools[..at] + pools[at + 1..]) && Partition(pools[..at] + pools[at + 1..], media)
  {
    hide IsSlug, Consistent, CleanList, Held;
    var rest := pools[..at] + pools[at + 1..];
    assert forall i :: 0 <= i < |rest| ==> rest[i] == pools[if i < at then i else i + 1];
  }

  // ---- creating and updating, by the fields of the request ----

  /** A string of the list is `b`, spaces around it aside. */
  ghost predicate Listed(items: seq<Item>, b: string) {
    exists item :: item in items && item.Name? && Trim(item.text) == b
  }

  lemma {:induction false} AsksExactly(items: seq<Item>, b: string)
    ensures Asks(items, b) <==> Listed(items, b)
  {
    hide Trim;
    if items != [] {
      AsksExactly(items[1..], b);
      assert items == [items[0]] + items[1..];
    }
  }

  /** What a stored pool asks for: its assigned list, or its other list when it has no such field. */
  lemma WantsExactly(p: Pool, b: string)
    ensures Wants(p, b) <==>
      || (p.stored.Items? && Listed(p.stored.items, b))
      || (p.stored.Missing? && p.barcodes.Items? && Listed(p.barcodes.items, b))
  {
    hide Asks, Listed;
    AsksExactly(RawItems(p), b);
    NothingListed(b);
  }

  lemma NothingListed(b: string)
    ensures !Listed([], b)
  {
  }

  lemma {:induction false} StrippedListed(items: seq<Item>, b: string)
    requires b != ""
    ensures Listed(AsItems(Stripped(items)), b) <==> Listed(items, b)
  {
    hide Trim;
    if items != [] {
      var names, rest := Stripped(items), Stripped(items[1..]);
      StrippedListed(items[1..], b);
      assert items == [items[0]] + items[1..];
      if items[0].Name? && Trim(items[0].text) != "" {
        var first := Trim(items[0].text);
        assert Trim(first) == first;
        assert AsItems(names) == [Name(first)] + AsItems(rest);
      } else {
        assert names == rest;
      }
    }
  }

  /** The new pool takes the listed barcodes that exist and that no other pool holds, and shows the
      name it was given, or its id when that is blank. */
  lemma CreatedPool(
      pools: seq<Pool>, media: set<string>, id: string, name: Option<string>, listed: Field, b: string)
    requires Partition(pools, media) && Keyed(pools) && Keyed(pools + [NewPool(id, name, listed)])
    ensures var after := Sync(pools + [NewPool(id, name, listed)], media);
      && |after| == |pools| + 1
      && after[|pools|].id == id
      && after[|pools|].name == (if name.Some? && Trim(name.value) != "" then Trim(name.value) else id)
      && (b in Held(after[|pools|]) <==>
            && b != "" && b in media && listed.Items? && Listed(listed.items, b)
            && forall j :: 0 <= j < |pools| ==> b !in Held(pools[j]))
  {
    hide Held, Partition, SyncFrom, Listed, Wants, Trim, Stripped, AsItems, IsSlug;
    var p := NewPool(id, name, listed);
    var all := pools + [p];
    CreateEffect(pools, media, p, |pools|, b);
    WantsExactly(p, b);
    if listed.Items? && b != "" {
      StrippedListed(listed.items, b);
    }
    NothingAsked(b);
    SyncNames(all, media, {}, |pools|);
    SlugOfLast(pools, p);
  }

  lemma NothingAsked(b: string)
    ensures !Listed(AsItems([]), b)
  {
  }

  lemma SlugOfLast(pools: seq<Pool>, p: Pool)
    requires Keyed(pools + [p])
    ensures p.id != "" && Trim(p.id) == p.id
  {
    hide IsSlug;
    assert (pools + [p])[|pools|] == p;
    SlugTrimmed(p.id);
  }

  lemma {:induction false} SyncNames(pools: seq<Pool>, media: set<string>, taken: set<string>, i: nat)
    requires i < |pools|
    ensures var synced := SyncFrom(pools, media, taken);
      |synced| == |pools| && synced[i].id == pools[i].id
      && synced[i].name == if Trim(pools[i].name) != "" then Trim(pools[i].name) else pools[i].id
  {
    hide Claim, RawItems, SyncFrom, Trim;
    var held := Claim(RawItems(pools[0]), media, taken);
    SyncSplit(pools, media, taken);
    SyncIds(pools, media, taken);
    if i > 0 {
      SyncNames(pools[1..], media, taken + Elements(held), i - 1);
    }
  }

  /** The request that an update makes for its pool's list. */
  ghost predicate Requests(p: Pool, listed: Option<Field>, barcodes: Option<Field>, b: string) {
    match listed
    case None => b in Held(p)
    case Some(NotAList) => false
    case Some(Items(items)) => Listed(items, b)
    case Some(Missing) =>
      if barcodes.Some? then barcodes.value.Items? && Listed(barcodes.value.items, b) else b in Held(p)
  }

  /** An update gives its pool the listed barcodes that exist and that no earlier pool holds; later
      pools lose what it lists, and everything else stays where it was. */
  lemma UpdatedPools(
      pools: seq<Pool>, media: set<string>, at: nat, name: Option<string>,
      listed: Option<Field>, barcodes: Option<Field>, i: nat, b: string)
    requires Partition(pools, media) && Keyed(pools) && at < |pools| && i < |pools|
    ensures var after := Sync(pools[at := Overwritten(pools[at], name, listed, barcodes)], media);
      && |after| == |pools|
      && (b in Held(after[i]) <==>
            if i < at then b in Held(pools[i])
            else if i > at then b in Held(pools[i]) && !Requests(pools[at], listed, barcodes, b)
            else && b != "" && b in media && Requests(pools[at], listed, barcodes, b)
                 && forall j :: 0 <= j < at ==> b !in Held(pools[j]))
  {
    hide Held, SyncFrom, Wants, Consistent, CleanList, IsSlug, Listed, Requests;
    var p := Overwritten(pools[at], name, listed, barcodes);
    var changed := pools[at := p];
    forall j | 0 <= j < |pools|
      ensures Wants(pools[j], b) <==> b in Held(pools[j])
      ensures b in Held(pools[j]) ==> b != "" && b in media
    {
      HoldsWhatItWants(pools[j], media, b);
    }
    RequestsExactly(pools[at], media, name, listed, barcodes, b);
    KeyedUpdate(pools, at, p);
    FirstClaimWins(changed, media, {}, i, b);
    NoneWantMeans(changed, i, b);
    if b in Held(pools[i]) {
      OnePoolHolds(pools, media, i, b);
    }
    assert forall j :: 0 <= j < |pools| && j != at ==> changed[j] == pools[j];
    assert changed[at] == p;
  }

  lemma RequestsExactly(
      p: Pool, media: set<string>, name: Option<string>, listed: Option<Field>, barcodes: Option<Field>, b: string)
    requires Consistent(p) && CleanList(Held(p), media)
    ensures Wants(Overwritten(p, name, listed, barcodes), b) <==> Requests(p, listed, barcodes, b)
  {
    hide Held, NextName, Listed, CleanList, Wants;
    HoldsWhatItWants(p, media, b);
    WantsExactly(p, b);
    WantsExactly(Overwritten(p, name, listed, barcodes), b);
  }

  /** Two names collide exactly when they differ in nothing but spaces around them and the case of
      their letters. */
  lemma SameNameExactly(left: string, a: string, right: string, b: string)
    requires Blank(left) && Trimmed(a) && Blank(right) && Trimmed(b)
    ensures SameName(left + a + right, b) <==>
      |a| == |b| && forall k :: 0 <= k < |a| ==> LowerChar(a[k]) == LowerChar(b[k])
  {
    hide LowerChar, Trim;
    TrimPadded(left, a, right);
    assert Trim(b) == b;
    if |a| == |b| && forall k :: 0 <= k < |a| ==> LowerChar(a[k]) == LowerChar(b[k]) {
      assert Lower(a) == Lower(b);
    } else if |a| == |b| {
      var k :| 0 <= k < |a| && LowerChar(a[k]) != LowerChar(b[k]);
      assert Lower(a)[k] != Lower(b)[k];
    }
  }

  /** An update shows the stripped new name unless that is blank, and otherwise the old one. */
  lemma NextNameExactly(p: Pool, name: Option<string>)
    requires Consistent(p)
    ensures NextName(p, name) == if name.Some? && Trim(name.value) != "" then Trim(name.value) else p.name
  {
    hide Trim;
  }
}
