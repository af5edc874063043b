/**
 Entity records for the anonymization preview (debug/offsets.py): where each span was in the original and
 where its token is in the anonymized text, in code points and in UTF-16 units.
 */
module Offsets {
  import opened Intervals
  import opened Options
  import opened Sorting
  import opened Splicing
  import opened Utf16

  /** `None` stands for a key that is missing or does not convert. */
  datatype Detection = Detection(entityType: Option<string>, start: Option<int>, end: Option<int>, score: Option<real>)

  datatype Item = Item(start: nat, end: nat, detection: Detection, span: string, token: string)

  datatype Entity = Entity(
    entityType: string, span: string, token: string, score: real,
    start: nat, end: nat, startUtf16: nat, endUtf16: nat,
    tokenStart: nat, tokenEnd: nat, tokenStartUtf16: nat, tokenEndUtf16: nat,
    messageIndex: Option<nat>)

  // ----- The spans that are reported -----

  function ItemOf(original: string, tokens: map<string, string>, d: Detection): Option<Item> {
    if d.start.None? || d.end.None? then None
    else
      var start, end := d.start.value, d.end.value;
      if start < 0 || end <= start || end > |original| then None
      else
        var span := original[start..end];
        if span !in tokens || tokens[span] == "" then None
        else Some(Item(start, end, d, span, tokens[span]))
  }

  function Collected(original: string, tokens: map<string, string>, ds: seq<Detection>): (items: seq<Item>)
    ensures forall x :: x in items ==> InText(original, x) && tokens.Items >= {(x.span, x.token)}
  {
    if ds == [] then []
    else
      var front, x := Collected(original, tokens, ds[..|ds| - 1]), ItemOf(original, tokens, ds[|ds| - 1]);
      if x.Some? then front + [x.value] else front
  }

  predicate InText(original: string, x: Item) {
    0 <= x.start < x.end <= |original| && x.span == original[x.start..x.end]
  }

  predicate ByRange(a: Item, b: Item) {
    a.start < b.start || (a.start == b.start && a.end <= b.end)
  }

  function LastEnd(kept: seq<Item>): int {
    if kept == [] then -1 else Last(kept).end
  }

  /** Greedy from the left: an item that starts before the last kept one ends is dropped. */
  function Kept(items: seq<Item>): seq<Item> {
    if items == [] then []
    else
      var front, x := Kept(Front(items)), Last(items);
      if x.start < LastEnd(front) then front else front + [x]
  }

  function Reported(original: string, tokens: map<string, string>, ds: seq<Detection>): seq<Item> {
    Kept(Sort(Collected(original, tokens, ds), ByRange))
  }

  function Edits(items: seq<Item>): (edits: seq<Edit>)
    ensures |edits| == |items|
  {
    if items == [] then [] else [Edit(items[0].start, items[0].end, items[0].token)] + Edits(items[1..])
  }

  // ----- The records -----

  /** Python's `s[:n]`. */
  function Take(s: string, n: nat): string {
    if n <= |s| then s[..n] else s
  }

  /** Where a token is in the anonymized text, and the span it stands for. */
  datatype Place = Place(start: nat, end: nat, span: string)

  function EntityOf(original: string, anonymized: string, x: Item, place: Place, index: Option<nat>): Entity {
    Entity(
      x.detection.entityType.GetOr("UNKNOWN"), x.span, x.token, x.detection.score.GetOr(0.0),
      x.start, x.end, Utf16Len(Take(original, x.start)), Utf16Len(Take(original, x.end)),
      place.start, place.end, Utf16Len(Take(anonymized, place.start)), Utf16Len(Take(anonymized, place.end)),
      index)
  }

  /** In order from `cursor` on, disjoint, and cut from the text. */
  ghost predicate Usable(original: string, items: seq<Item>, cursor: int)
    decreases |items|
  {
    if items == [] then cursor <= |original|
    else cursor <= items[0].start && InText(original, items[0]) && Usable(original, items[1..], items[0].end)
  }

  lemma {:induction false} UsableFits(original: string, items: seq<Item>, cursor: int)
    requires Usable(original, items, cursor)
    ensures Fits(Edits(items), cursor, |original|)
    decreases |items|
  {
    if items == [] {
    } else {
      UsableFits(original, items[1..], items[0].end);
    }
  }

  /** The original with every item replaced by its token. */
  function Anonymized(original: string, items: seq<Item>): string
    requires Usable(original, items, 0)
  {
    UsableFits(original, items, 0);
    Spliced(original, Edits(items), 0)
  }

  /** Where each item's token ends up in the anonymized text, with the span that belongs there. */
  function Places(original: string, items: seq<Item>, cursor: nat, shifted: nat): (places: seq<Place>)
    requires Usable(original, items, cursor)
    ensures |places| == |items|
    decreases |items|
  {
    if items == [] then []
    else
      var x := items[0];
      var start := shifted + (x.start - cursor);
      [Place(start, start + |x.token|, x.span)] + Places(original, items[1..], x.end, start + |x.token|)
  }

  /** One record per item, described together with the place of its token. */
  function Described(items: seq<Item>, places: seq<Place>, describe: (Item, Place) -> Entity): (r: seq<Entity>)
    requires |items| == |places|
    ensures |r| == |items|
  {
    seq(|items|, k requires 0 <= k < |items| => describe(items[k], places[k]))
  }

  function Describer(original: string, anonymized: string, index: Option<nat>): (Item, Place) -> Entity {
    (x: Item, place: Place) => EntityOf(original, anonymized, x, place, index)
  }

  function Records(original: string, anonymized: string, items: seq<Item>, index: Option<nat>): (r: seq<Entity>)
    requires Usable(original, items, 0)
    ensures |r| == |items|
  {
    Described(items, Places(original, items, 0, 0), Describer(original, anonymized, index))
  }

  method Collect(original: string, detections: seq<Detection>, tokens: map<string, string>) returns (spans: seq<Item>)
    ensures spans == Collected(original, tokens, detections)
  {
    spans := [];
    for k := 0 to |detections|
      invariant spans == Collected(original, tokens, detections[..k])
    {
      assert detections[..k + 1][..k] == detections[..k];
      var item := ItemOf(original, tokens, detections[k]);
      if item.None? {
        continue;
      }
      spans := spans + [item.value];
    }
    assert detections[..|detections|] == detections;
  }

  method KeepApart(spans: seq<Item>) returns (filtered: seq<Item>)
    ensures filtered == Kept(spans)
  {
    filtered := [];
    var lastEnd: int := -1;
    for k := 0 to |spans|
      invariant filtered == Kept(spans[..k]) && lastEnd == LastEnd(filtered)
    {
      assert Front(spans[..k + 1]) == spans[..k];
      var item := spans[k];
      if item.start < lastEnd {
        continue;
      }
      filtered := filtered + [item];
      lastEnd := item.end;
    }
    assert spans[..|spans|] == spans;
  }

  /** The last loop; `describe` builds the record of one item. */
  method Project(original: string, filtered: seq<Item>, describe: (Item, Place) -> Entity) returns (entities: seq<Entity>)
    requires Usable(original, filtered, 0)
    ensures entities == Described(filtered, Places(original, filtered, 0, 0), describe)
  {
    var cursor, previousEnd := 0, 0;
    entities := [];
    ghost var places := Places(original, filtered, 0, 0);
    for k := 0 to |filtered|
      invariant cursor == if k == 0 then 0 else places[k - 1].end
      invariant previousEnd == if k == 0 then 0 else filtered[k - 1].end
      invariant entities == Described(filtered, places, describe)[..k]
    {
      var x := filtered[k];
      PlaceAt(original, filtered, 0, 0, k);
      cursor := cursor + (x.start - previousEnd);
      var tokenStart := cursor;
      var tokenEnd := tokenStart + |x.token|;
      cursor := tokenEnd;
      previousEnd := x.end;
      entities := entities + [describe(x, Place(tokenStart, tokenEnd, x.span))];
    }
  }

  /** Each token starts as far behind the previous token as its span does behind the previous span. */
  lemma {:induction false} PlaceAt(original: string, items: seq<Item>, cursor: nat, shifted: nat, k: nat)
    requires Usable(original, items, cursor) && k < |items|
    ensures var places := Places(original, items, cursor, shifted);
            var start := (if k == 0 then shifted else places[k - 1].end)
                         + items[k].start - (if k == 0 then cursor else items[k - 1].end);
            0 <= start && places[k] == Place(start, start + |items[k].token|, items[k].span)
    ensures InText(original, items[k])
    decreases |items|
  {
    if k == 0 {
    } else {
      var x := items[0];
      PlaceAt(original, items[1..], x.end, shifted + (x.start - cursor) + |x.token|, k - 1);
    }
  }

  method EntitiesForText(
    original: string, anonymized: string, detections: seq<Detection>, tokens: map<string, string>, index: Option<nat>)
    returns (entities: seq<Entity>)
    ensures Usable(original, Reported(original, tokens, detections), 0)
    ensures entities == Records(original, anonymized, Reported(original, tokens, detections), index)
  {
    var spans := Collect(original, detections, tokens);
    var filtered := KeepApart(Sort(spans, ByRange));
    ReportedIsUsable(original, tokens, detections);
    entities := Project(original, filtered, Describer(original, anonymized, index));
  }

  // ----- The kept items fit the text -----

  lemma {:induction false} UsableAppend(original: string, items: seq<Item>, cursor: int, x: Item)
    requires Usable(original, items, cursor) && InText(original, x)
    requires (if items == [] then cursor else Last(items).end) <= x.start
    ensures Usable(original, items + [x], cursor)
    decreases |items|
  {
    if items == [] {
      assert ([x])[1..] == [];
    } else {
      assert (items + [x])[1..] == items[1..] + [x];
      UsableAppend(original, items[1..], items[0].end, x);
    }
  }

  lemma {:induction false} KeptIsUsable(original: string, items: seq<Item>)
    requires forall x :: x in items ==> InText(original, x)
    ensures Usable(original, Kept(items), 0)
  {
    if items == [] {
    } else {
      assert items == Front(items) + [Last(items)];
      KeptIsUsable(original, Front(items));
      if Last(items).start >= LastEnd(Kept(Front(items))) {
        UsableAppend(original, Kept(Front(items)), 0, Last(items));
      }
    }
  }

  lemma ReportedIsUsable(original: string, tokens: map<string, string>, ds: seq<Detection>)
    ensures Usable(original, Reported(original, tokens, ds), 0)
  {
    SortKeepsMembers(Collected(original, tokens, ds), ByRange);
    KeptIsUsable(original, Sort(Collected(original, tokens, ds), ByRange));
  }

  /** Whatever is dropped overlaps a kept item that starts no later: the earliest start wins. */
  lemma {:induction false} DroppedItemsOverlap(items: seq<Item>, x: Item)
    requires SortedBy(items, ByRange) && x in items && x !in Kept(items)
    requires forall y :: y in items ==> 0 <= y.start
    ensures exists y :: y in Kept(items) && y.start <= x.start < y.end
  {
    var front, last := Front(items), Last(items);
    assert items == front + [last];
    if x in front {
      assert x !in Kept(front);
      DroppedItemsOverlap(front, x);
      var y :| y in Kept(front) && y.start <= x.start < y.end;
      assert y in Kept(items);
    } else {
      assert last.start < LastEnd(Kept(front));
      LastKeptPrecedes(front, last);
    }
  }

  lemma LastKeptPrecedes(front: seq<Item>, x: Item)
    requires SortedBy(front + [x], ByRange) && x.start < LastEnd(Kept(front)) && 0 <= x.start
    ensures Last(Kept(front)) in Kept(front) && Last(Kept(front)).start <= x.start
  {
    KeptAreMembers(front);
    var y := Last(Kept(front));
    assert y in Kept(front);
    var i :| 0 <= i < |front| && front[i] == y;
    assert ByRange((front + [x])[i], (front + [x])[|front|]);
  }

  lemma {:induction false} KeptAreMembers(items: seq<Item>)
    ensures forall y :: y in Kept(items) ==> y in items
  {
    if items == [] {
    } else {
      KeptAreMembers(Front(items));
      assert items == Front(items) + [Last(items)];
    }
  }

  // ----- What the records say about the anonymized text -----

  /** The edit that puts an entity's span back into the anonymized text. */
  function UndoOf(entities: seq<Entity>): (edits: seq<Edit>)
    ensures |edits| == |entities|
  {
    if entities == [] then []
    else [Edit(entities[0].tokenStart, entities[0].tokenEnd, entities[0].span)] + UndoOf(entities[1..])
  }

  function EditsOf(places: seq<Place>): (edits: seq<Edit>)
    ensures |edits| == |places|
    ensures forall k :: 0 <= k < |edits| ==> edits[k] == Edit(places[k].start, places[k].end, places[k].span)
  {
    if places == [] then [] else [Edit(places[0].start, places[0].end, places[0].span)] + EditsOf(places[1..])
  }

  lemma {:induction false} PlacesAreUndo(original: string, items: seq<Item>, cursor: nat, shifted: nat)
    requires Usable(original, items, cursor) && Fits(Edits(items), cursor, |original|)
    ensures EditsOf(Places(original, items, cursor, shifted)) == Undo(original, Edits(items), cursor, shifted)
    decreases |items|
  {
    if items == [] {
    } else {
      var x := items[0];
      PlacesAreUndo(original, items[1..], x.end, shifted + (x.start - cursor) + |x.token|);
    }
  }

  lemma {:induction false} UndoOfAt(entities: seq<Entity>, k: nat)
    requires k < |entities|
    ensures UndoOf(entities)[k] == Edit(entities[k].tokenStart, entities[k].tokenEnd, entities[k].span)
  {
    if k == 0 {
    } else {
      UndoOfAt(entities[1..], k - 1);
    }
  }

  lemma RecordsUndo(original: string, anonymized: string, items: seq<Item>, index: Option<nat>)
    requires Usable(original, items, 0) && Fits(Edits(items), 0, |original|)
    ensures UndoOf(Records(original, anonymized, items, index)) == Undo(original, Edits(items), 0, 0)
  {
    var r, places := Records(original, anonymized, items, index), Places(original, items, 0, 0);
    PlacesAreUndo(original, items, 0, 0);
    forall k | 0 <= k < |items| ensures UndoOf(r)[k] == EditsOf(places)[k] {
      UndoOfAt(r, k);
      PlaceAt(original, items, 0, 0, k);
    }
  }

  /**
   When the anonymized text is the original with the reported spans replaced, the reported token ranges are in
   order and disjoint, and putting the spans back at those ranges gives the original.
   */
  lemma RecordsRestoreTheOriginal(original: string, anonymized: string, items: seq<Item>, index: Option<nat>)
    requires Usable(original, items, 0) && anonymized == Anonymized(original, items)
    ensures var undo := UndoOf(Records(original, anonymized, items, index));
            Fits(undo, 0, |anonymized|) && Spliced(anonymized, undo, 0) == original
  {
    UsableFits(original, items, 0);
    RecordsUndo(original, anonymized, items, index);
    UndoRestores(original, Edits(items), 0, "");
    assert "" + anonymized == anonymized;
  }

  /** A record describes its item exactly, in both texts and in both units. */
  ghost predicate Exact(original: string, anonymized: string, x: Item, e: Entity) {
    && e.span == x.span && e.token == x.token && e.start == x.start && e.end == x.end
    && Slices(original, e.start, e.end, e.startUtf16, e.endUtf16, e.span)
    && Slices(anonymized, e.tokenStart, e.tokenEnd, e.tokenStartUtf16, e.tokenEndUtf16, e.token)
  }

  /** `part` is `text[i..j]`, and its UTF-16 form is at `i16..j16` of the text's UTF-16 form. */
  ghost predicate Slices(text: string, i: int, j: int, i16: nat, j16: nat, part: string) {
    && 0 <= i <= j <= |text| && text[i..j] == part
    && i16 <= j16 <= |Units(text)| && Units(text)[i16..j16] == Units(part)
    && j16 - i16 == Utf16Len(part)
  }

  /** Both pairs of offsets of every record slice out exactly the span and the token. */
  lemma RecordsAreExact(original: string, anonymized: string, items: seq<Item>, index: Option<nat>, k: nat)
    requires Usable(original, items, 0) && anonymized == Anonymized(original, items)
    requires k < |items|
    ensures Exact(original, anonymized, items[k], Records(original, anonymized, items, index)[k])
  {
    PlaceAt(original, items, 0, 0, k);
    TokenIsInPlace(original, anonymized, items, k);
    ExactWhenInPlace(original, anonymized, items[k], Places(original, items, 0, 0)[k], index);
  }

  /**
   A record carries its detection's type and score, "UNKNOWN" and zero where they are missing or do not convert, and
   the given index of the message.
   */
  lemma RecordsKeepTheirDetection(original: string, anonymized: string, items: seq<Item>, index: Option<nat>, k: nat)
    requires Usable(original, items, 0) && k < |items|
    ensures var e, d := Records(original, anonymized, items, index)[k], items[k].detection;
            && (d.entityType == None ==> e.entityType == "UNKNOWN")
            && (d.entityType != None ==> Some(e.entityType) == d.entityType)
            && (d.score == None ==> e.score == 0.0) && (d.score != None ==> Some(e.score) == d.score)
            && e.messageIndex == index
  {
  }

  lemma TokenIsInPlace(original: string, anonymized: string, items: seq<Item>, k: nat)
    requires Usable(original, items, 0) && anonymized == Anonymized(original, items)
    requires k < |items|
    ensures var place := Places(original, items, 0, 0)[k];
            place.start <= place.end <= |anonymized| && anonymized[place.start..place.end] == items[k].token
  {
    UsableFits(original, items, 0);
    PlacesAreUndo(original, items, 0, 0);
    UndoHolds(original, Edits(items), 0, "");
    assert "" + anonymized == anonymized;
    EditAt(items, k);
    assert HoldsAt(anonymized, Edits(items)[k], EditsOf(Places(original, items, 0, 0))[k]);
  }

  lemma ExactWhenInPlace(original: string, anonymized: string, x: Item, place: Place, index: Option<nat>)
    requires InText(original, x)
    requires place.start <= place.end <= |anonymized| && anonymized[place.start..place.end] == x.token
    ensures Exact(original, anonymized, x, EntityOf(original, anonymized, x, place, index))
  {
    SliceInUnits(original, x.start, x.end);
    SliceInUnits(anonymized, place.start, place.end);
  }

  lemma {:induction false} EditAt(items: seq<Item>, k: nat)
    requires k < |items|
    ensures Edits(items)[k] == Edit(items[k].start, items[k].end, items[k].token)
  {
    if k == 0 {
    } else {
      EditAt(items[1..], k - 1);
    }
  }
}
