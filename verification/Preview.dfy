/**
 The anonymization preview (debug/preview.py, debug/offsets.py) looks tokens up by value, in a mapping that forgets
 whether a value was reversible (`get_mapping` in tokenization/tokenizer.py).  This says when the records it builds
 are exact for the text the tokenizer really produced.
 */
module Preview {
  import opened Intervals
  import opened Options
  import opened Sessions
  import opened Sorting
  import opened Splicing
  import opened Text
  import opened T = Tokenization
  import O = Offsets
  import RoundTrip

  // ----- The mapping by value -----

  /** The keys of the session's dictionary in insertion order. */
  ghost predicate IsIssueOrder(order: seq<Key>, s: Session) {
    forall k :: k in order <==> k in s.issued
  }

  /** `get_mapping`: a later key with the same value overwrites an earlier one. */
  function MappingOf(order: seq<Key>, issued: map<Key, string>): map<string, string>
    requires forall k :: k in order ==> k in issued
  {
    if order == [] then map[] else MappingOf(Front(order), issued)[Last(order).0 := issued[Last(order)]]
  }

  ghost predicate IsLatestAt(order: seq<Key>, i: nat)
    requires i < |order|
  {
    forall j :: i < j < |order| ==> order[j].0 != order[i].0
  }

  /** Its value did not get a token of the other kind later on. */
  ghost predicate IsLatest(order: seq<Key>, key: Key) {
    exists i :: 0 <= i < |order| && order[i] == key && IsLatestAt(order, i)
  }

  lemma {:induction false} MappingOfIsLatest(order: seq<Key>, issued: map<Key, string>, key: Key) returns (i: nat)
    requires (forall k :: k in order ==> k in issued) && key in order
    ensures i < |order| && order[i].0 == key.0 && IsLatestAt(order, i)
    ensures key.0 in MappingOf(order, issued) && MappingOf(order, issued)[key.0] == issued[order[i]]
  {
    if Last(order).0 == key.0 {
      i := |order| - 1;
    } else {
      assert order == Front(order) + [Last(order)];
      i := MappingOfIsLatest(Front(order), issued, key);
    }
  }

  /** The lookup by value finds the token of a key exactly if that key is the latest with its value. */
  lemma FindsItsTokenIff(s: Session, order: seq<Key>, key: Key)
    requires HasOrigins(s) && IsIssueOrder(order, s) && key in s.issued
    ensures var tokens := MappingOf(order, s.issued);
            key.0 in tokens && tokens[key.0] != "" && (tokens[key.0] == s.issued[key] <==> IsLatest(order, key))
  {
    var i := MappingOfIsLatest(order, s.issued, key);
    TokensOpenWithABracket(s, order[i]);
    if s.issued[order[i]] == s.issued[key] {
      SameTokenSameKey(s, order[i], key);
    }
    if IsLatest(order, key) {
      var j :| 0 <= j < |order| && order[j] == key && IsLatestAt(order, j);
      assert i == j;
    }
  }

  /** Letter for letter, tokens always differ. */
  lemma SameTokenSameKey(s: Session, j: Key, k: Key)
    requires HasOrigins(s) && j in s.issued && k in s.issued && s.issued[j] == s.issued[k]
    ensures j == k
  {
    var origin: map<Key, Origin> :| Explains(s, origin);
    var a := OriginOf(s, origin, j);
    var b := OriginOf(s, origin, k);
    TokenTextIsInjective(a.shortType, a.index, b.shortType, b.index);
  }

  // ----- The reported items are the accepted pieces -----

  predicate Apart(a: Piece, b: Piece) {
    a.end <= b.start || b.end <= a.start
  }

  predicate ItemsApart(x: O.Item, y: O.Item) {
    x.end <= y.start || y.end <= x.start
  }

  /** The tokenizer and the preview are given the same detections. */
  ghost predicate SameRanges(ds: seq<T.Detection>, shown: seq<O.Detection>) {
    |ds| == |shown| && forall k :: 0 <= k < |ds| ==> ds[k].start == shown[k].start && ds[k].end == shown[k].end
  }

  predicate Known(text: string, tokens: map<string, string>, p: Piece) {
    && 0 <= p.start < p.end <= |text|
    && text[p.start..p.end] in tokens && tokens[text[p.start..p.end]] != ""
  }

  function ItemRanges(items: seq<O.Item>): (r: seq<Range>)
    ensures |r| == |items|
  {
    seq(|items|, i requires 0 <= i < |items| => Range(items[i].start, items[i].end))
  }

  lemma {:induction false} CollectedRanges(
    text: string, ds: seq<T.Detection>, shown: seq<O.Detection>, tokens: map<string, string>)
    requires SameRanges(ds, shown) && forall p :: p in Valid(text, ds) ==> Known(text, tokens, p)
    ensures ItemRanges(O.Collected(text, tokens, shown)) == RangesOf(Valid(text, ds))
  {
    if ds == [] {
    } else {
      assert forall p :: p in Valid(text, Front(ds)) ==> p in Valid(text, ds);
      CollectedRanges(text, Front(ds), Front(shown), tokens);
      assert ds[|ds| - 1].start == shown[|ds| - 1].start && ds[|ds| - 1].end == shown[|ds| - 1].end;
      LastRange(text, Last(ds), Last(shown), tokens);
      var p := PieceOf(text, Last(ds));
      if p.Some? {
        assert Valid(text, ds) == Valid(text, Front(ds)) + [p.value];
        assert p.value in Valid(text, ds) && Known(text, tokens, p.value);
        assert RangesOf(Valid(text, ds)) == RangesOf(Valid(text, Front(ds))) + [Range(p.value.start, p.value.end)];
      }
    }
  }

  lemma LastRange(text: string, d: T.Detection, shown: O.Detection, tokens: map<string, string>)
    requires d.start == shown.start && d.end == shown.end
    ensures var p, x := PieceOf(text, d), O.ItemOf(text, tokens, shown);
            && (x.Some? ==> p.Some? && x.value.start == p.value.start && x.value.end == p.value.end)
            && (p.Some? && Known(text, tokens, p.value) ==> x.Some?)
  {
  }

  lemma SortedApartIsSeparated(valid: seq<Piece>)
    requires Pairwise(valid, Apart) && forall p :: p in valid ==> p.start < p.end
    ensures Separated(RangesOf(Sort(valid, LongestFirst)))
  {
    var ps := Sort(valid, LongestFirst);
    SortKeepsPairwise(valid, LongestFirst, Apart);
    SortSorts(valid, LongestFirst);
    SortKeepsMembers(valid, LongestFirst);
    forall i | 0 <= i < |ps| ensures RangesOf(ps)[i].start < RangesOf(ps)[i].end {
      assert ps[i] in ps;
    }
    forall i, j | 0 <= i < j < |ps| ensures RangesOf(ps)[i].end <= RangesOf(ps)[j].start {
      assert Apart(ps[i], ps[j]) && LongestFirst(ps[i], ps[j]) && ps[i] in ps && ps[j] in ps;
    }
  }

  lemma SortedItemsAreSeparated(items: seq<O.Item>)
    requires Pairwise(items, ItemsApart) && forall x :: x in items ==> x.start < x.end
    ensures Separated(ItemRanges(Sort(items, O.ByRange)))
  {
    var xs := Sort(items, O.ByRange);
    SortKeepsPairwise(items, O.ByRange, ItemsApart);
    SortSorts(items, O.ByRange);
    SortKeepsMembers(items, O.ByRange);
    forall i | 0 <= i < |xs| ensures ItemRanges(xs)[i].start < ItemRanges(xs)[i].end {
      assert xs[i] in xs;
    }
    forall i, j | 0 <= i < j < |xs| ensures ItemRanges(xs)[i].end <= ItemRanges(xs)[j].start {
      assert ItemsApart(xs[i], xs[j]) && O.ByRange(xs[i], xs[j]) && xs[i] in xs && xs[j] in xs;
    }
  }

  lemma FrontIsSeparated(rs: seq<Range>)
    requires Separated(rs) && rs != []
    ensures Separated(Front(rs))
    ensures Front(rs) != [] ==> Last(Front(rs)).end <= Last(rs).start
  {
    assert forall r :: r in Front(rs) ==> r in rs;
  }

  /** Nothing is merged. */
  lemma {:induction false} AcceptsSeparated(ps: seq<Piece>)
    requires Separated(RangesOf(ps))
    ensures AcceptAll(ps) == ps
  {
    if ps == [] {
    } else {
      assert RangesOf(Front(ps)) == Front(RangesOf(ps));
      FrontIsSeparated(RangesOf(ps));
      AcceptsSeparated(Front(ps));
    }
  }

  /** Nothing is dropped. */
  lemma {:induction false} KeepsSeparated(items: seq<O.Item>)
    requires Separated(ItemRanges(items)) && forall x :: x in items ==> 0 <= x.start
    ensures O.Kept(items) == items
  {
    if items == [] {
    } else {
      assert ItemRanges(Front(items)) == Front(ItemRanges(items));
      FrontIsSeparated(ItemRanges(items));
      assert forall x :: x in Front(items) ==> x in items;
      KeepsSeparated(Front(items));
      assert Last(items) in items;
    }
  }

  lemma ItemsAreApart(items: seq<O.Item>, ps: seq<Piece>)
    requires ItemRanges(items) == RangesOf(ps) && Pairwise(ps, Apart)
    ensures Pairwise(items, ItemsApart)
  {
    forall i, j | 0 <= i < j < |items| ensures ItemsApart(items[i], items[j]) {
      assert Apart(ps[i], ps[j]);
      assert ItemRanges(items)[i] == RangesOf(ps)[i] && ItemRanges(items)[j] == RangesOf(ps)[j];
    }
  }

  lemma SameItemsSameRanges(xs: seq<O.Item>, ys: seq<O.Item>, r: Range)
    requires forall x :: x in xs ==> x in ys
    requires r in ItemRanges(xs)
    ensures r in ItemRanges(ys)
  {
    var i :| 0 <= i < |xs| && ItemRanges(xs)[i] == r;
    assert xs[i] in xs;
    var j :| 0 <= j < |ys| && ys[j] == xs[i];
    assert ItemRanges(ys)[j] == r;
  }

  lemma SortedItemRanges(items: seq<O.Item>, r: Range)
    ensures r in ItemRanges(Sort(items, O.ByRange)) <==> r in ItemRanges(items)
  {
    SortKeepsMembers(items, O.ByRange);
    if r in ItemRanges(items) {
      SameItemsSameRanges(items, Sort(items, O.ByRange), r);
    }
    if r in ItemRanges(Sort(items, O.ByRange)) {
      SameItemsSameRanges(Sort(items, O.ByRange), items, r);
    }
  }

  lemma SortedPieceRanges(ps: seq<Piece>, r: Range)
    ensures r in RangesOf(Sort(ps, LongestFirst)) <==> r in RangesOf(ps)
  {
    SortKeepsMembers(ps, LongestFirst);
    SamePiecesSameRanges(ps, Sort(ps, LongestFirst));
    SamePiecesSameRanges(Sort(ps, LongestFirst), ps);
  }

  /** For detections that share no character and have tokens, the preview reports what the tokenizer replaced. */
  lemma ReportedAreAccepted(text: string, ds: seq<T.Detection>, shown: seq<O.Detection>, tokens: map<string, string>)
    requires SameRanges(ds, shown) && Pairwise(Valid(text, ds), Apart)
    requires forall p :: p in Valid(text, ds) ==> Known(text, tokens, p)
    ensures ItemRanges(O.Reported(text, tokens, shown)) == RangesOf(Accepted(text, ds))
  {
    var valid, collected := Valid(text, ds), O.Collected(text, tokens, shown);
    CollectedRanges(text, ds, shown, tokens);
    ItemsAreApart(collected, valid);
    SortedApartIsSeparated(valid);
    SortedItemsAreSeparated(collected);
    AcceptsSeparated(Sort(valid, LongestFirst));
    SortKeepsMembers(collected, O.ByRange);
    KeepsSeparated(Sort(collected, O.ByRange));
    var as_, bs := ItemRanges(Sort(collected, O.ByRange)), RangesOf(Sort(valid, LongestFirst));
    forall r ensures r in as_ <==> r in bs {
      SortedItemRanges(collected, r);
      SortedPieceRanges(valid, r);
    }
    SeparatedIsUnique(as_, bs);
  }

  // ----- When every record is exact -----

  /** An item stands for an edit: the same characters, and perhaps the same token. */
  predicate Stands(x: O.Item, e: Edit) {
    x.start == e.start && x.end == e.end
  }

  ghost predicate AllStand(items: seq<O.Item>, edits: seq<Edit>) {
    |items| == |edits| && forall k :: 0 <= k < |items| ==> Stands(items[k], edits[k])
  }

  ghost predicate SameTokens(items: seq<O.Item>, edits: seq<Edit>)
    requires |items| == |edits|
  {
    forall k :: 0 <= k < |items| ==> items[k].token == edits[k].replacement
  }

  lemma {:induction false} SameTokensSameEdits(items: seq<O.Item>, edits: seq<Edit>)
    requires AllStand(items, edits) && SameTokens(items, edits)
    ensures O.Edits(items) == edits
  {
    forall k | 0 <= k < |items| ensures O.Edits(items)[k] == edits[k] {
      O.EditAt(items, k);
      assert Stands(items[k], edits[k]);
    }
  }

  /** The item's token, or one that only begins like it, is a different token. */
  predicate NotPrefixes(x: O.Item, e: Edit) {
    x.token <= e.replacement || e.replacement <= x.token ==> x.token == e.replacement
  }

  ghost predicate NoPrefixes(items: seq<O.Item>, edits: seq<Edit>)
    requires |items| == |edits|
  {
    forall k :: 0 <= k < |items| ==> NotPrefixes(items[k], edits[k])
  }

  predicate FoundAt(out: string, place: O.Place, token: string) {
    place.start <= place.end <= |out| && out[place.start..place.end] == token
  }

  ghost predicate AllFound(out: string, places: seq<O.Place>, items: seq<O.Item>)
    requires |places| == |items|
  {
    forall k :: 0 <= k < |items| ==> FoundAt(out, places[k], items[k].token)
  }

  /** The items with the tokens that were really put in their places. */
  function Retokened(items: seq<O.Item>, edits: seq<Edit>): (r: seq<O.Item>)
    requires |items| == |edits|
    ensures |r| == |items|
    ensures forall k :: 0 <= k < |items| ==> r[k] == items[k].(token := edits[k].replacement)
  {
    seq(|items|, k requires 0 <= k < |items| => items[k].(token := edits[k].replacement))
  }

  lemma {:induction false} RetokenedIsUsable(text: string, items: seq<O.Item>, edits: seq<Edit>, cursor: int)
    requires |items| == |edits| && O.Usable(text, items, cursor)
    ensures O.Usable(text, Retokened(items, edits), cursor)
    decreases |items|
  {
    if items == [] {
    } else {
      RetokenedIsUsable(text, items[1..], edits[1..], items[0].end);
      assert Retokened(items, edits)[1..] == Retokened(items[1..], edits[1..]);
    }
  }

  lemma RetokenedEdits(items: seq<O.Item>, edits: seq<Edit>)
    requires AllStand(items, edits)
    ensures O.Edits(Retokened(items, edits)) == edits
  {
    var r := Retokened(items, edits);
    forall k | 0 <= k < |items| ensures Stands(r[k], edits[k]) && r[k].token == edits[k].replacement {
      assert Stands(items[k], edits[k]);
    }
    SameTokensSameEdits(r, edits);
  }

  lemma TwoAtOnePlace(out: string, x: O.Item, e: Edit, p: O.Place, q: O.Place)
    requires FoundAt(out, p, x.token) && FoundAt(out, q, e.replacement) && p.start == q.start && NotPrefixes(x, e)
    ensures x.token == e.replacement
  {
    assert p.end <= q.end ==> x.token <= e.replacement;
    assert q.end <= p.end ==> e.replacement <= x.token;
  }

  /** The token put in at `k` is where the places of the true items say. */
  lemma TrueTokenIsFound(text: string, items: seq<O.Item>, edits: seq<Edit>, k: nat)
    requires O.Usable(text, items, 0) && Fits(edits, 0, |text|) && AllStand(items, edits) && k < |items|
    requires O.Usable(text, Retokened(items, edits), 0)
    ensures FoundAt(Spliced(text, edits, 0), O.Places(text, Retokened(items, edits), 0, 0)[k], edits[k].replacement)
  {
    RetokenedEdits(items, edits);
    O.TokenIsInPlace(text, Spliced(text, edits, 0), Retokened(items, edits), k);
  }

  /** As long as the tokens before it agree, an item's token and the true one start at the same place. */
  lemma SameStartAt(text: string, items: seq<O.Item>, edits: seq<Edit>, k: nat)
    requires O.Usable(text, items, 0) && |items| == |edits| && k < |items| && O.Usable(text, Retokened(items, edits), 0)
    requires k > 0 ==> O.Places(text, items, 0, 0)[k - 1].end == O.Places(text, Retokened(items, edits), 0, 0)[k - 1].end
    ensures var p, q := O.Places(text, items, 0, 0)[k], O.Places(text, Retokened(items, edits), 0, 0)[k];
            p.start == q.start && p.end == p.start + |items[k].token| && q.end == q.start + |edits[k].replacement|
  {
    O.PlaceAt(text, items, 0, 0, k);
    O.PlaceAt(text, Retokened(items, edits), 0, 0, k);
  }

  /** If every item's token is found at its place, the tokens are those of the edits. */
  lemma {:induction false} FoundIsSame(text: string, items: seq<O.Item>, edits: seq<Edit>, k: nat)
    requires O.Usable(text, items, 0) && Fits(edits, 0, |text|) && AllStand(items, edits) && NoPrefixes(items, edits)
    requires O.Usable(text, Retokened(items, edits), 0)
    requires AllFound(Spliced(text, edits, 0), O.Places(text, items, 0, 0), items) && k < |items|
    ensures items[k].token == edits[k].replacement
    ensures O.Places(text, items, 0, 0)[k].end == O.Places(text, Retokened(items, edits), 0, 0)[k].end
  {
    if k > 0 {
      FoundIsSame(text, items, edits, k - 1);
    }
    SameStartAt(text, items, edits, k);
    TrueTokenIsFound(text, items, edits, k);
    var out, places := Spliced(text, edits, 0), O.Places(text, items, 0, 0);
    assert FoundAt(out, places[k], items[k].token) && NotPrefixes(items[k], edits[k]);
    TwoAtOnePlace(out, items[k], edits[k], places[k], O.Places(text, Retokened(items, edits), 0, 0)[k]);
  }

  ghost predicate AllExact(text: string, out: string, items: seq<O.Item>, records: seq<O.Entity>)
    requires |items| == |records|
  {
    forall k :: 0 <= k < |items| ==> O.Exact(text, out, items[k], records[k])
  }

  lemma ExactIsFound(text: string, out: string, items: seq<O.Item>, index: Option<nat>)
    requires O.Usable(text, items, 0) && AllExact(text, out, items, O.Records(text, out, items, index))
    ensures AllFound(out, O.Places(text, items, 0, 0), items)
  {
    var places := O.Places(text, items, 0, 0);
    forall k | 0 <= k < |items| ensures FoundAt(out, places[k], items[k].token) {
      assert O.Exact(text, out, items[k], O.Records(text, out, items, index)[k]);
    }
  }

  /** The records are exact for a tokenized text exactly if the lookup found the very tokens that were put there. */
  lemma ExactIffSameTokens(text: string, items: seq<O.Item>, edits: seq<Edit>, index: Option<nat>)
    requires O.Usable(text, items, 0) && Fits(edits, 0, |text|) && AllStand(items, edits) && NoPrefixes(items, edits)
    ensures var out := Spliced(text, edits, 0);
            AllExact(text, out, items, O.Records(text, out, items, index)) <==> SameTokens(items, edits)
  {
    var out := Spliced(text, edits, 0);
    if AllExact(text, out, items, O.Records(text, out, items, index)) {
      ExactIsFound(text, out, items, index);
      RetokenedIsUsable(text, items, edits, 0);
      forall k | 0 <= k < |items| ensures items[k].token == edits[k].replacement {
        FoundIsSame(text, items, edits, k);
      }
    }
    if SameTokens(items, edits) {
      SameTokensSameEdits(items, edits);
      forall k | 0 <= k < |items| ensures O.Exact(text, out, items[k], O.Records(text, out, items, index)[k]) {
        O.RecordsAreExact(text, out, items, index, k);
      }
    }
  }

  // ----- The preview of a session -----

  function KeyOf(text: string, p: Piece): Key
    requires 0 <= p.start <= p.end <= |text|
  {
    (text[p.start..p.end], p.reversible)
  }

  /** No token of the session begins with another; types without brackets are enough for this. */
  ghost predicate NoTokenBeginsAnother(s: Session) {
    forall j, k :: j in s.issued && k in s.issued && s.issued[j] <= s.issued[k] ==> s.issued[j] == s.issued[k]
  }

  ghost predicate AllLatest(order: seq<Key>, text: string, ps: seq<Piece>)
    requires InText(text, ps)
  {
    forall k :: 0 <= k < |ps| ==> IsLatest(order, KeyOf(text, ps[k]))
  }

  /** One piece: the item that reports it carries its token exactly if its key is the latest with that value. */
  lemma OnePiece(s: Session, order: seq<Key>, text: string, p: Piece, e: Edit, x: O.Item)
    requires HasOrigins(s) && IsIssueOrder(order, s) && NoTokenBeginsAnother(s)
    requires 0 <= p.start <= p.end <= |text| && CarriesToken(s, text, p, e)
    requires x.start == p.start && x.end == p.end && O.InText(text, x)
    requires Get(MappingOf(order, s.issued), x.span) == Some(x.token)
    ensures Stands(x, e) && NotPrefixes(x, e)
    ensures x.token == e.replacement <==> IsLatest(order, KeyOf(text, p))
  {
    var key := KeyOf(text, p);
    FindsItsTokenIff(s, order, key);
    var i := MappingOfIsLatest(order, s.issued, key);
    assert x.token == s.issued[order[i]] && e.replacement == s.issued[key];
  }

  lemma AcceptedIsValid(text: string, ds: seq<T.Detection>)
    requires Pairwise(Valid(text, ds), Apart)
    ensures forall p :: p in Accepted(text, ds) <==> p in Valid(text, ds)
  {
    SortedApartIsSeparated(Valid(text, ds));
    AcceptsSeparated(Sort(Valid(text, ds), LongestFirst));
    SortKeepsMembers(Valid(text, ds), LongestFirst);
  }

  lemma PiecesAreKnown(s: Session, order: seq<Key>, text: string, ps: seq<Piece>, edits: seq<Edit>, p: Piece)
    requires HasOrigins(s) && IsIssueOrder(order, s) && p in ps
    requires InText(text, ps) && |edits| == |ps| && CarriesTokens(s, text, ps, edits) && p.start < p.end
    ensures Known(text, MappingOf(order, s.issued), p)
  {
    var i :| 0 <= i < |ps| && ps[i] == p;
    assert CarriesToken(s, text, ps[i], edits[i]);
    FindsItsTokenIff(s, order, KeyOf(text, p));
  }

  /** Cut from the text, with the token that the lookup gives for its characters. */
  ghost predicate LookedUp(text: string, tokens: map<string, string>, x: O.Item) {
    O.InText(text, x) && Get(tokens, x.span) == Some(x.token)
  }

  lemma ReportedAreLookedUp(text: string, tokens: map<string, string>, shown: seq<O.Detection>, x: O.Item)
    requires x in O.Reported(text, tokens, shown)
    ensures LookedUp(text, tokens, x)
  {
    var collected := O.Collected(text, tokens, shown);
    SortKeepsMembers(collected, O.ByRange);
    O.KeptAreMembers(Sort(collected, O.ByRange));
    assert x in collected && (x.span, x.token) in tokens.Items;
  }

  ghost predicate ReportsPiece(order: seq<Key>, text: string, p: Piece, e: Edit, x: O.Item)
    requires 0 <= p.start <= p.end <= |text|
  {
    Stands(x, e) && NotPrefixes(x, e) && (x.token == e.replacement <==> IsLatest(order, KeyOf(text, p)))
  }

  lemma ItemReportsPiece(
    s: Session, order: seq<Key>, text: string, ps: seq<Piece>, edits: seq<Edit>, items: seq<O.Item>, k: nat)
    requires HasOrigins(s) && IsIssueOrder(order, s) && NoTokenBeginsAnother(s)
    requires InText(text, ps) && |edits| == |ps| && CarriesTokens(s, text, ps, edits)
    requires ItemRanges(items) == RangesOf(ps) && k < |ps|
    requires |items| == |ps| && LookedUp(text, MappingOf(order, s.issued), items[k])
    ensures ReportsPiece(order, text, ps[k], edits[k], items[k])
  {
    assert ItemRanges(items)[k] == RangesOf(ps)[k];
    assert CarriesToken(s, text, ps[k], edits[k]);
    OnePiece(s, order, text, ps[k], edits[k], items[k]);
  }

  ghost predicate AllReported(order: seq<Key>, text: string, ps: seq<Piece>, edits: seq<Edit>, items: seq<O.Item>)
    requires InText(text, ps)
  {
    |items| == |edits| == |ps| && forall k :: 0 <= k < |ps| ==> ReportsPiece(order, text, ps[k], edits[k], items[k])
  }

  lemma SameTokensIffLatest(order: seq<Key>, text: string, ps: seq<Piece>, edits: seq<Edit>, items: seq<O.Item>)
    requires InText(text, ps) && AllReported(order, text, ps, edits, items)
    ensures AllStand(items, edits) && NoPrefixes(items, edits)
    ensures SameTokens(items, edits) <==> AllLatest(order, text, ps)
  {
    forall k | 0 <= k < |ps|
      ensures Stands(items[k], edits[k]) && NotPrefixes(items[k], edits[k])
      ensures items[k].token == edits[k].replacement <==> IsLatest(order, KeyOf(text, ps[k]))
    {
      assert ReportsPiece(order, text, ps[k], edits[k], items[k]);
    }
  }

  /** The preview of detections that share no character reports every accepted piece. */
  lemma AllAreReported(
    s: Session, order: seq<Key>, text: string, ds: seq<T.Detection>, ps: seq<Piece>, edits: seq<Edit>,
    shown: seq<O.Detection>)
    requires HasOrigins(s) && IsIssueOrder(order, s) && NoTokenBeginsAnother(s)
    requires SameRanges(ds, shown) && Pairwise(Valid(text, ds), Apart)
    requires ps == Accepted(text, ds) && InText(text, ps) && |edits| == |ps| && CarriesTokens(s, text, ps, edits)
    ensures AllReported(order, text, ps, edits, O.Reported(text, MappingOf(order, s.issued), shown))
  {
    var tokens := MappingOf(order, s.issued);
    var items := O.Reported(text, tokens, shown);
    AcceptedIsValid(text, ds);
    forall p | p in Valid(text, ds) ensures Known(text, tokens, p) {
      PiecesAreKnown(s, order, text, ps, edits, p);
    }
    ReportedAreAccepted(text, ds, shown, tokens);
    forall k | 0 <= k < |ps| ensures ReportsPiece(order, text, ps[k], edits[k], items[k]) {
      ReportedAreLookedUp(text, tokens, shown, items[k]);
      ItemReportsPiece(s, order, text, ps, edits, items, k);
    }
  }

  /** What the preview shows for a text is exact throughout. */
  ghost predicate ShownExactly(
    text: string, out: string, tokens: map<string, string>, shown: seq<O.Detection>, index: Option<nat>)
  {
    O.ReportedIsUsable(text, tokens, shown);
    var items := O.Reported(text, tokens, shown);
    AllExact(text, out, items, O.Records(text, out, items, index))
  }

  lemma CarriedIsExactIff(
    s: Session, order: seq<Key>, text: string, ds: seq<T.Detection>, ps: seq<Piece>, edits: seq<Edit>,
    shown: seq<O.Detection>, index: Option<nat>)
    requires HasOrigins(s) && IsIssueOrder(order, s) && NoTokenBeginsAnother(s)
    requires SameRanges(ds, shown) && Pairwise(Valid(text, ds), Apart)
    requires ps == Accepted(text, ds) && InText(text, ps) && |edits| == |ps| && CarriesTokens(s, text, ps, edits)
    requires Fits(edits, 0, |text|)
    ensures var tokens := MappingOf(order, s.issued);
            && |O.Reported(text, tokens, shown)| == |ps|
            && (ShownExactly(text, Spliced(text, edits, 0), tokens, shown, index) <==> AllLatest(order, text, ps))
  {
    var tokens := MappingOf(order, s.issued);
    var items := O.Reported(text, tokens, shown);
    AllAreReported(s, order, text, ds, ps, edits, shown);
    SameTokensIffLatest(order, text, ps, edits, items);
    O.ReportedIsUsable(text, tokens, shown);
    ExactIffSameTokens(text, items, edits, index);
  }

  lemma TokenizedFits(s: Session, text: string, ds: seq<T.Detection>, ps: seq<Piece>, r: Issues)
    requires ps == Accepted(text, ds) && InText(text, ps) && r == TokenizeAll(s, text, ps, map[])
    ensures Fits(r.edits, 0, |text|)
  {
    AcceptedFits(text, ds);
    EditsFit(s, text, ps, map[], 0);
  }

  /**
   A text is tokenized in any session, which may tokenize more before the preview asks for its mapping.  The preview
   has a record for every accepted piece, and all of them are exact if and only if no value replaced in the text got
   a token of the other kind, reversible or irreversible, after its own.
   */
  lemma PreviewIsExactIff(
    s: Session, text: string, ds: seq<T.Detection>, ps: seq<Piece>, r: Issues, later: Session, order: seq<Key>,
    shown: seq<O.Detection>, index: Option<nat>)
    requires ps == Accepted(text, ds) && InText(text, ps) && r == TokenizeAll(s, text, ps, map[])
    requires Extends(r.session, later) && HasOrigins(later) && IsIssueOrder(order, later) && NoTokenBeginsAnother(later)
    requires SameRanges(ds, shown) && Pairwise(Valid(text, ds), Apart)
    ensures var tokens := MappingOf(order, later.issued);
            && |O.Reported(text, tokens, shown)| == |ps| && Fits(r.edits, 0, |text|)
            && (ShownExactly(text, Spliced(text, r.edits, 0), tokens, shown, index) <==> AllLatest(order, text, ps))
  {
    TokenizedFits(s, text, ds, ps, r);
    StillCarries(s, text, ps, r, later);
    CarriedIsExactIff(later, order, text, ds, ps, r.edits, shown, index);
  }

  /** Types without brackets are enough for no token to begin with another. */
  lemma BracketlessTokensBeginNoOther(s: Session)
    requires HasOrigins(s) && RoundTrip.Bracketless(s)
    ensures NoTokenBeginsAnother(s)
  {
    forall j, k | j in s.issued && k in s.issued && s.issued[j] <= s.issued[k] ensures s.issued[j] == s.issued[k] {
      RoundTrip.TokensAreBracketed(s, j);
      RoundTrip.TokensAreBracketed(s, k);
      var a, b := s.issued[j], s.issued[k];
      assert b[|a| - 1] == a[|a| - 1] == ']';
    }
  }

  /** A secret that occurs again as an ordinary value: its record names the token of the second occurrence. */
  lemma {:induction false} SecretSeenAgainIsMisreported(
    text: string, ds: seq<T.Detection>, r: Issues, order: seq<Key>, shown: seq<O.Detection>, index: Option<nat>)
    requires text == "a a" && order == [("a", false), ("a", true)] && SameRanges(ds, shown)
    requires ds == [T.Detection("X", Some(0), Some(1), Some(false)), T.Detection("X", Some(2), Some(3), Some(true))]
    requires InText(text, Accepted(text, ds)) && r == TokenizeAll(Session(0, map[], map[]), text, Accepted(text, ds), map[])
    ensures IsIssueOrder(order, r.session) && MappingOf(order, r.session.issued) == map["a" := "[X_1]"]
    ensures Fits(r.edits, 0, |text|) && Spliced(text, r.edits, 0) == "[X_0] [X_1]"
    ensures !ShownExactly(text, "[X_0] [X_1]", map["a" := "[X_1]"], shown, index)
  {
    var s, ps := Session(0, map[], map[]), [Piece("X", 0, 1, false), Piece("X", 2, 3, true)];
    TwoPieces(text, ds, ps);
    TwoTokens(text, ps, r);
    TwoKeys(order, r.session);
    FreshSessionIsTraced(0);
    FirstIsNotLatest(order);
    StaleKeyIsMisreported(s, text, ds, ps, r, order, shown, index);
  }

  lemma StaleKeyIsMisreported(
    s: Session, text: string, ds: seq<T.Detection>, ps: seq<Piece>, r: Issues, order: seq<Key>,
    shown: seq<O.Detection>, index: Option<nat>)
    requires ps == Accepted(text, ds) && InText(text, ps) && r == TokenizeAll(s, text, ps, map[])
    requires Traced(s) && IsIssueOrder(order, r.session) && RoundTrip.Bracketless(r.session)
    requires SameRanges(ds, shown) && Pairwise(Valid(text, ds), Apart)
    requires ps != [] && !IsLatest(order, KeyOf(text, ps[0])) && Fits(r.edits, 0, |text|)
    ensures !ShownExactly(text, Spliced(text, r.edits, 0), MappingOf(order, r.session.issued), shown, index)
  {
    TokenizeKeepsTraced(s, text, ps, map[]);
    BracketlessTokensBeginNoOther(r.session);
    PreviewIsExactIff(s, text, ds, ps, r, r.session, order, shown, index);
  }

  lemma TwoKeys(order: seq<Key>, s: Session)
    requires order == [("a", false), ("a", true)] && s.counters == map["X" := 2]
    requires s.issued == map[("a", false) := "[X_0]", ("a", true) := "[X_1]"]
    ensures IsIssueOrder(order, s) && MappingOf(order, s.issued) == map["a" := "[X_1]"]
    ensures RoundTrip.Bracketless(s)
  {
    OneTypeIsBracketless(s, "X");
    assert order[0] in order && order[1] in order;
    var issued := s.issued;
    assert Front(order) == [("a", false)] && Front(Front(order)) == [];
    assert MappingOf([("a", false)], issued) == map["a" := "[X_0]"];
  }

  lemma FirstIsNotLatest(order: seq<Key>)
    requires order == [("a", false), ("a", true)]
    ensures !IsLatest(order, ("a", false))
  {
    assert order[0].0 == order[1].0;
    assert !IsLatestAt(order, 0);
    assert order[1] != ("a", false);
  }

  lemma TwoPieces(text: string, ds: seq<T.Detection>, ps: seq<Piece>)
    requires ds == [T.Detection("X", Some(0), Some(1), Some(false)), T.Detection("X", Some(2), Some(3), Some(true))]
    requires text == "a a" && ps == [Piece("X", 0, 1, false), Piece("X", 2, 3, true)]
    ensures Valid(text, ds) == ps && Pairwise(Valid(text, ds), Apart) && Accepted(text, ds) == ps
  {
    assert Front(ds) == [ds[0]] && Front(Front(ds)) == [];
    assert PieceOf(text, ds[0]) == Some(ps[0]) && PieceOf(text, ds[1]) == Some(ps[1]);
    assert Valid(text, [ds[0]]) == [ps[0]];
    assert Valid(text, ds) == [ps[0]] + [ps[1]] == ps;
    TwoAccepted(ps);
  }

  lemma {:induction false} TwoAccepted(ps: seq<Piece>)
    requires |ps| == 2 && ps[0].start < ps[0].end <= ps[1].start < ps[1].end
    ensures AcceptAll(Sort(ps, LongestFirst)) == ps && Pairwise(ps, Apart)
  {
    SortedIsFixed(ps, LongestFirst);
    assert RangesOf(ps) == [Range(ps[0].start, ps[0].end), Range(ps[1].start, ps[1].end)];
    AcceptsSeparated(ps);
  }

  lemma {:induction false} TwoTokens(text: string, ps: seq<Piece>, r: Issues)
    requires text == "a a" && ps == [Piece("X", 0, 1, false), Piece("X", 2, 3, true)]
    requires InText(text, ps) && r == TokenizeAll(Session(0, map[], map[]), text, ps, map[])
    ensures r.session == Session(0, map["X" := 2], map[("a", false) := "[X_0]", ("a", true) := "[X_1]"])
    ensures r.edits == [Edit(0, 1, "[X_0]"), Edit(2, 3, "[X_1]")]
    ensures Fits(r.edits, 0, |text|) && Spliced(text, r.edits, 0) == "[X_0] [X_1]"
  {
    var s0 := Session(0, map[], map[]);
    var first := TokenFor(s0, "a", ps[0], map[]);
    assert Decimal(0) == "0" && Decimal(1) == "1";
    assert TokenText("X", 0) == "[X_0]" && TokenText("X", 1) == "[X_1]";
    assert text[0..1] == "a" && text[2..3] == "a" && text[1..2] == " " && text[3..] == "" && text[0..0] == "";
    assert first.session == Session(0, map["X" := 1], map[("a", false) := "[X_0]"]);
    var second := TokenFor(first.session, "a", ps[1], first.mapping);
    assert ps[1..] == [ps[1]] && ps[1..][1..] == [];
    assert TokenizeAll(first.session, text, ps[1..], first.mapping)
        == Issues(second.session, second.mapping, [Edit(2, 3, "[X_1]")]);
    assert r.edits == [Edit(0, 1, "[X_0]"), Edit(2, 3, "[X_1]")];
    assert r.edits[1..] == [Edit(2, 3, "[X_1]")] && r.edits[1..][1..] == [];
    assert Spliced(text, r.edits[1..], 1) == " [X_1]";
  }

  lemma OneTypeIsBracketless(s: Session, t: string)
    requires s.counters.Keys == {t} && RoundTrip.NoBrackets(t)
    ensures RoundTrip.Bracketless(s)
  {
  }
}
