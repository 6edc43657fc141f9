/** The drive serial map (openblade/config.py): text of the form `serial:id,serial:id`. */
module SerialMap {
  import opened Decimal
  import opened Text
  import opened Wrappers

  datatype Entry = Entry(serial: string, driveId: int)

  datatype ParseError =
    | NotOfTheForm(item: string)
    | NotAnInteger(item: string)
    | NegativeId(item: string)
    | RepeatedSerial(serial: string)
    | RepeatedId(driveId: int)

  // ---- one entry ----

  /** The position of the last colon, or the length when there is none. */
  function LastColon(s: string): (i: nat)
    ensures i <= |s| && (i < |s| ==> s[i] == ':')
    decreases |s|
  {
    if s == [] then 0
    else if s[|s| - 1] == ':' then |s| - 1
    else
      var i := LastColon(s[..|s| - 1]);
      if i == |s| - 1 then |s| else i
  }

  /** One stripped, non-empty chunk. */
  function ParseItem(item: string): Result<Entry, ParseError> {
    var colon := LastColon(item);
    if colon == |item| then Failure(NotOfTheForm(item))
    else
      var serial, digits := Trim(item[..colon]), Trim(item[colon + 1..]);
      if serial == "" || digits == "" then Failure(NotOfTheForm(item))
      else match ParseInt(digits)
        case None => Failure(NotAnInteger(item))
        case Some(id) => if id < 0 then Failure(NegativeId(item)) else Success(Entry(serial, id))
  }

  // ---- the whole text ----

  /** The stripped chunks between commas that are not empty. */
  function ItemsOf(chunks: seq<string>): seq<string> {
    if chunks == [] then []
    else (if Trim(chunks[0]) == "" then [] else [Trim(chunks[0])]) + ItemsOf(chunks[1..])
  }

  function Items(raw: string): seq<string> {
    ItemsOf(Split(raw, ','))
  }

  function Serials(entries: seq<Entry>): set<string> {
    set e | e in entries :: e.serial
  }

  function Ids(entries: seq<Entry>): set<int> {
    set e | e in entries :: e.driveId
  }

  /** The first objection to `e` after the entries before it. */
  function Objection(before: seq<Entry>, e: Entry): Option<ParseError> {
    if e.serial in Serials(before) then Some(RepeatedSerial(e.serial))
    else if e.driveId in Ids(before) then Some(RepeatedId(e.driveId))
    else None
  }

  /** Accepts `item` as the next entry after `before`. */
  ghost predicate Accepts(item: string, before: seq<Entry>, e: Entry) {
    ParseItem(item) == Success(e) && Objection(before, e).None?
  }

  /** Every item parses, in order, and no serial or id repeats. */
  ghost predicate ParsesTo(items: seq<string>, entries: seq<Entry>) {
    |entries| == |items| && forall i :: 0 <= i < |items| ==> Accepts(items[i], entries[..i], entries[i])
  }

  /** The items before `i` parse to `entries`, and item `i` raises `error`. */
  ghost predicate FailsAt(items: seq<string>, i: nat, entries: seq<Entry>, error: ParseError) {
    && i < |items|
    && ParsesTo(items[..i], entries)
    && match ParseItem(items[i])
       case Failure(e) => e == error
       case Success(e) => Objection(entries, e) == Some(error)
  }

  lemma ItemsStep(chunks: seq<string>, n: nat)
    requires n < |chunks|
    ensures var item := Trim(chunks[n]);
      ItemsOf(chunks[n..]) == (if item == "" then [] else [item]) + ItemsOf(chunks[n + 1..])
  {
    hide Trim;
    assert chunks[n..][0] == chunks[n] && chunks[n..][1..] == chunks[n + 1..];
  }

  lemma ItemsNothing(chunks: seq<string>)
    requires chunks == []
    ensures ItemsOf(chunks) == []
  {
  }

  lemma RaisesAt(all: seq<string>, before: seq<string>, item: string, after: seq<string>,
                 entries: seq<Entry>, error: ParseError)
    requires all == before + [item] + after && ParsesTo(before, entries)
    requires match ParseItem(item)
             case Failure(e) => e == error
             case Success(e) => Objection(entries, e) == Some(error)
    ensures FailsAt(all, |before|, entries, error)
  {
    hide ParseItem, Objection, ParsesTo;
    assert all[..|before|] == before;
  }

  /** `result` is right for `raw`: its entries parse every item, or its error is raised at the
      first item that raises one. */
  ghost predicate IsOutcome(raw: string, result: Result<seq<Entry>, ParseError>) {
    match result
    case Success(entries) => ParsesTo(Items(raw), entries)
    case Failure(error) => exists i: nat, entries :: FailsAt(Items(raw), i, entries, error)
  }

  method ParseDriveSerialMap(raw: string) returns (result: Result<seq<Entry>, ParseError>)
    ensures IsOutcome(raw, result)
  {
    hide ParseItem, Trim, Split, ItemsOf, FailsAt, ParsesTo;
    var chunks := Split(raw, ',');
    var entries: seq<Entry> := [];
    var seenSerials: set<string>, seenIds: set<int> := {}, {};
    ghost var items: seq<string> := [];
    ParsesNothing();
    for n := 0 to |chunks|
      invariant Items(raw) == items + ItemsOf(chunks[n..])
      invariant ParsesTo(items, entries)
      invariant seenSerials == Serials(entries) && seenIds == Ids(entries)
    {
      var item := Trim(chunks[n]);
      ItemsStep(chunks, n);
      if item == "" {
        assert [] + ItemsOf(chunks[n + 1..]) == ItemsOf(chunks[n + 1..]);
        continue;
      }
      ghost var rest := ItemsOf(chunks[n + 1..]);
      assert items + ([item] + rest) == items + [item] + rest;
      var parsed := ParseItem(item);
      if parsed.Failure? {
        RaisesAt(Items(raw), items, item, rest, entries, parsed.error);
        return Failure(parsed.error);
      }
      var e := parsed.value;
      if e.serial in seenSerials {
        RaisesAt(Items(raw), items, item, rest, entries, RepeatedSerial(e.serial));
        return Failure(RepeatedSerial(e.serial));
      }
      if e.driveId in seenIds {
        RaisesAt(Items(raw), items, item, rest, entries, RepeatedId(e.driveId));
        return Failure(RepeatedId(e.driveId));
      }
      seenSerials, seenIds := seenSerials + {e.serial}, seenIds + {e.driveId};
      ParsesToAppend(items, entries, item, e);
      SeenAppend(entries, e);
      items, entries := items + [item], entries + [e];
    }
    ItemsNothing(chunks[|chunks|..]);
    assert items + [] == items;
    result := Success(entries);
  }

  lemma SeenAppend(entries: seq<Entry>, e: Entry)
    ensures Serials(entries + [e]) == Serials(entries) + {e.serial}
    ensures Ids(entries + [e]) == Ids(entries) + {e.driveId}
  {
    assert forall x :: x in entries + [e] <==> x in entries || x == e;
  }

  lemma ParsesNothing()
    ensures ParsesTo([], [])
  {
  }

  lemma ParsesToAppend(items: seq<string>, entries: seq<Entry>, item: string, e: Entry)
    requires ParsesTo(items, entries) && Accepts(item, entries, e)
    ensures ParsesTo(items + [item], entries + [e])
  {
    hide Accepts;
    var moreItems, more := items + [item], entries + [e];
    forall i | 0 <= i < |moreItems|
      ensures Accepts(moreItems[i], more[..i], more[i])
    {
      if i < |items| {
        assert more[..i] == entries[..i];
      } else {
        assert more[..i] == entries;
      }
    }
  }

  // ---- the outcome is determined ----

  lemma {:induction false} ParseUnique(items: seq<string>, a: seq<Entry>, b: seq<Entry>, n: nat)
    requires n <= |items| && ParsesTo(items[..n], a) && |b| >= n && ParsesTo(items[..n], b[..n])
    ensures a == b[..n]
  {
    hide ParseItem, Objection;
    forall i | 0 <= i < n
      ensures a[i] == b[i]
    {
      assert Accepts(items[..n][i], a[..i], a[i]);
      assert Accepts(items[..n][i], b[..n][..i], b[..n][i]);
    }
  }

  lemma ParsePrefix(items: seq<string>, entries: seq<Entry>, n: nat)
    requires ParsesTo(items, entries) && n <= |items|
    ensures ParsesTo(items[..n], entries[..n])
  {
    hide Accepts;
    forall i | 0 <= i < n
      ensures Accepts(items[..n][i], entries[..n][..i], entries[..n][i])
    {
      assert entries[..n][..i] == entries[..i];
    }
  }

  /** A text either parses, to one list of entries, or fails at one item with one error. */
  lemma OutcomeUnique(items: seq<string>, i: nat, a: seq<Entry>, error: ParseError)
    requires FailsAt(items, i, a, error)
    ensures forall b :: !ParsesTo(items, b)
    ensures forall j: nat, b, other :: FailsAt(items, j, b, other) ==> j == i && b == a && other == error
  {
    hide ParseItem, Objection;
    forall b
      ensures !ParsesTo(items, b)
    {
      assert items[..|items|] == items;
      FailsEarlier(items, i, a, error, |items|, b);
    }
    forall j: nat, b, other | FailsAt(items, j, b, other)
      ensures j == i && b == a && other == error
    {
      if j < i {
        FailsEarlier(items, j, b, other, i, a);
      } else if i < j {
        FailsEarlier(items, i, a, error, j, b);
      } else {
        assert b[..i] == b;
        ParseUnique(items, a, b, i);
      }
    }
  }

  lemma AcceptsAt(items: seq<string>, entries: seq<Entry>, j: nat)
    requires ParsesTo(items, entries) && j < |items|
    ensures Accepts(items[j], entries[..j], entries[j])
  {
  }

  lemma FailsEarlier(items: seq<string>, j: nat, b: seq<Entry>, error: ParseError, i: nat, a: seq<Entry>)
    requires FailsAt(items, j, b, error) && j < i <= |items|
    ensures !ParsesTo(items[..i], a)
  {
    hide ParseItem, Objection;
    if ParsesTo(items[..i], a) {
      AcceptsAt(items[..i], a, j);
      ParsePrefix(items[..i], a, j);
      assert items[..i][..j] == items[..j];
      ParseUnique(items, b, a, j);
    }
  }

  // ---- what is accepted ----

  /** A serial that can be written in the map: not empty, no surrounding space, no comma. */
  predicate Writable(serial: string) {
    serial != "" && Trimmed(serial) && ',' !in serial
  }

  /** Distinct writable serials with distinct non-negative ids. */
  ghost predicate IsMap(entries: seq<Entry>) {
    && (forall i :: 0 <= i < |entries| ==> Writable(entries[i].serial) && entries[i].driveId >= 0)
    && forall i, j :: 0 <= i < j < |entries| ==>
         entries[i].serial != entries[j].serial && entries[i].driveId != entries[j].driveId
  }

  lemma TrimMembers(s: string, c: char)
    requires c in Trim(s)
    ensures c in s
  {
    hide *;
    var i, j := TrimParts(s);
  }

  lemma {:induction false} ItemsFacts(chunks: seq<string>, i: nat)
    requires i < |ItemsOf(chunks)| && forall k :: 0 <= k < |chunks| ==> ',' !in chunks[k]
    ensures ',' !in ItemsOf(chunks)[i]
  {
    hide Trim;
    var first := if Trim(chunks[0]) == "" then [] else [Trim(chunks[0])];
    if i < |first| {
      if ',' in Trim(chunks[0]) {
        TrimMembers(chunks[0], ',');
      }
    } else {
      ItemsFacts(chunks[1..], i - |first|);
    }
  }

  lemma ParseItemFacts(item: string, e: Entry)
    requires ParseItem(item) == Success(e) && ',' !in item
    ensures Writable(e.serial) && e.driveId >= 0
  {
    hide ParseInt;
    var head := item[..LastColon(item)];
    assert e.serial == Trim(head);
    if ',' in Trim(head) {
      TrimMembers(head, ',');
    }
  }

  /** Every accepted text gives distinct serials and distinct non-negative ids. */
  lemma AcceptedIsMap(raw: string, entries: seq<Entry>)
    requires ParsesTo(Items(raw), entries)
    ensures IsMap(entries)
  {
    hide ParseItem, Writable, Split, ItemsOf;
    JoinSplit(raw, ',');
    forall i | 0 <= i < |entries|
      ensures Writable(entries[i].serial) && entries[i].driveId >= 0
    {
      assert Accepts(Items(raw)[i], entries[..i], entries[i]);
      ItemsFacts(Split(raw, ','), i);
      ParseItemFacts(Items(raw)[i], entries[i]);
    }
    forall i, j | 0 <= i < j < |entries|
      ensures entries[i].serial != entries[j].serial && entries[i].driveId != entries[j].driveId
    {
      assert Accepts(Items(raw)[j], entries[..j], entries[j]);
      assert entries[..j][i] == entries[i];
    }
  }

  // ---- printing ----

  function RenderEntry(e: Entry): string
    requires e.driveId >= 0
  {
    e.serial + ":" + Render(e.driveId)
  }

  function RenderEntries(entries: seq<Entry>): seq<string>
    requires forall i :: 0 <= i < |entries| ==> entries[i].driveId >= 0
  {
    seq(|entries|, i requires 0 <= i < |entries| => RenderEntry(entries[i]))
  }

  function RenderMap(entries: seq<Entry>): string
    requires forall i :: 0 <= i < |entries| ==> entries[i].driveId >= 0
  {
    if entries == [] then "" else Join(RenderEntries(entries), ',')
  }

  lemma {:induction false} LastColonFound(head: string, tail: string)
    requires ':' !in tail
    ensures LastColon(head + ":" + tail) == |head|
    decreases |tail|
  {
    var s := head + ":" + tail;
    if tail == [] {
      assert s[|s| - 1] == ':';
    } else {
      assert s[|s| - 1] == tail[|tail| - 1] && tail[|tail| - 1] in tail;
      assert s[..|s| - 1] == head + ":" + tail[..|tail| - 1];
      LastColonFound(head, tail[..|tail| - 1]);
    }
  }

  lemma DigitsPlain(n: nat)
    ensures var d := Render(n); ':' !in d && ',' !in d && Trimmed(d) && d != ""
  {
    assert forall c :: c in Render(n) ==> IsDigit(c);
  }

  /** A rendered entry is one proper item and parses back to the entry. */
  lemma ParseRenderedItem(e: Entry)
    requires Writable(e.serial) && e.driveId >= 0
    ensures var item := RenderEntry(e);
      ',' !in item && Trim(item) == item && item != "" && ParseItem(item) == Success(e)
  {
    hide Render, ParseInt, Trim;
    var d := Render(e.driveId);
    var item := e.serial + ":" + d;
    DigitsPlain(e.driveId);
    LastColonFound(e.serial, d);
    assert item[..|e.serial|] == e.serial && item[|e.serial| + 1..] == d;
    ParseIntRender(e.driveId);
    assert item[0] == e.serial[0] && item[|item| - 1] == d[|d| - 1];
  }

  lemma {:induction false} ItemsOfClean(chunks: seq<string>)
    requires forall k :: 0 <= k < |chunks| ==> Trim(chunks[k]) == chunks[k] && chunks[k] != ""
    ensures ItemsOf(chunks) == chunks
  {
    hide Trim;
    if chunks != [] {
      ItemsOfClean(chunks[1..]);
    }
  }

  lemma RenderedItems(entries: seq<Entry>)
    requires IsMap(entries)
    ensures Items(RenderMap(entries)) == RenderEntries(entries)
  {
    hide RenderEntry, ParseItem, Writable, Split, Trim;
    if entries == [] {
      SplitPrefix("", ',', []);
      TrimNothing();
    } else {
      var parts := RenderEntries(entries);
      forall k | 0 <= k < |parts|
        ensures ',' !in parts[k] && Trim(parts[k]) == parts[k] && parts[k] != ""
      {
        ParseRenderedItem(entries[k]);
      }
      SplitJoin(parts, ',');
      ItemsOfClean(parts);
    }
  }

  lemma TrimNothing()
    ensures Trim("") == ""
  {
  }

  /** Parsing undoes printing: a rendered map parses back to its entries, in order. */
  lemma ParseUndoesPrinting(entries: seq<Entry>)
    requires IsMap(entries)
    ensures ParsesTo(Items(RenderMap(entries)), entries)
  {
    hide RenderEntry, ParseItem, Writable, Items, RenderMap, Objection;
    RenderedItems(entries);
    var items := RenderEntries(entries);
    forall i | 0 <= i < |items|
      ensures Accepts(items[i], entries[..i], entries[i])
    {
      ParseRenderedItem(entries[i]);
      NoObjection(entries, i);
    }
  }

  lemma NoObjection(entries: seq<Entry>, i: nat)
    requires IsMap(entries) && i < |entries|
    ensures Objection(entries[..i], entries[i]).None?
  {
  }

  /** So `ParseDriveSerialMap`, whose contract is `IsOutcome`, returns the map it is given printed. */
  lemma ParserUndoesPrinting(entries: seq<Entry>, result: Result<seq<Entry>, ParseError>)
    requires IsMap(entries) && IsOutcome(RenderMap(entries), result)
    ensures result == Success(entries)
  {
    hide Items, RenderMap, ParsesTo, FailsAt, RenderEntry, Writable;
    var items := Items(RenderMap(entries));
    ParseUndoesPrinting(entries);
    match result
    case Success(parsed) =>
      ParsedAlike(items, entries, parsed);
    case Failure(error) =>
      var i: nat, before :| FailsAt(items, i, before, error);
      OutcomeUnique(items, i, before, error);
  }

  lemma ParsedAlike(items: seq<string>, a: seq<Entry>, b: seq<Entry>)
    requires ParsesTo(items, a) && ParsesTo(items, b)
    ensures a == b
  {
    hide Accepts;
    assert items[..|items|] == items && b[..|items|] == b;
    ParseUnique(items, a, b, |items|);
  }

  /** Whatever spelling was accepted, printing the result gives a text with the same meaning. */
  lemma PrintingNormalizes(raw: string, entries: seq<Entry>)
    requires ParsesTo(Items(raw), entries)
    ensures IsMap(entries) && ParsesTo(Items(RenderMap(entries)), entries)
  {
    AcceptedIsMap(raw, entries);
    ParseUndoesPrinting(entries);
  }

  // ---- spaces and errors ----

  lemma {:induction false} NoColon(item: string)
    requires ':' !in item
    ensures LastColon(item) == |item|
    decreases |item|
  {
    if item != [] {
      assert item[|item| - 1] in item;
      NoColon(item[..|item| - 1]);
    }
  }

  /** An item without a colon has not the form of an entry. */
  lemma ItemWithoutColon(item: string)
    requires ':' !in item
    ensures ParseItem(item) == Failure(NotOfTheForm(item))
  {
    NoColon(item);
  }

  /** An item is read at its last colon, spaces around that aside: which error it raises, and which
      entry it makes. */
  lemma ItemExactly(serial: string, right: string, left: string, digits: string)
    requires Trimmed(serial) && Blank(right) && Blank(left) && Trimmed(digits) && ':' !in left && ':' !in digits
    ensures var item := serial + right + ":" + (left + digits); var id := ParseInt(digits);
      ParseItem(item) ==
        if serial == "" || digits == "" then Failure(NotOfTheForm(item))
        else if id.None? then Failure(NotAnInteger(item))
        else if id.value < 0 then Failure(NegativeId(item))
        else Success(Entry(serial, id.value))
  {
    hide Trim, ParseInt, LastColon;
    var head, tail := serial + right, left + digits;
    var item := head + ":" + tail;
    LastColonFound(head, tail);
    TrimPadded([], serial, right);
    TrimPadded(left, digits, []);
    assert [] + serial + right == head && left + digits + [] == tail;
    assert item[..|head|] == head && item[|head| + 1..] == tail;
  }

  /** Chunks may have spaces around them, and blank ones do not count. */
  lemma ItemsPadded(left: string, item: string, right: string, rest: string)
    requires Blank(left) && Trimmed(item) && Blank(right)
    requires ',' !in left && ',' !in item && ',' !in right
    ensures var found := if item == "" then [] else [item];
      && Items(left + item + right) == found
      && Items(left + item + right + "," + rest) == found + Items(rest)
  {
    hide Trim, Split;
    var chunk := left + item + right;
    TrimPadded(left, item, right);
    SplitPrefix(chunk, ',', rest);
    assert chunk + "," + rest == chunk + [','] + rest;
    var all := [chunk] + Split(rest, ',');
    ItemsStep(all, 0);
    ItemsStep([chunk], 0);
    assert all[0..] == all && all[1..] == Split(rest, ',');
    assert [chunk][0..] == [chunk] && [chunk][1..] == [];
  }
}
