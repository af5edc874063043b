/**
 Tokenize, send, restore: the law the gateway exists for.

 For every text, every list of detections and arbitrary types, restoring the tokenized text gives the original back,
 except that irreversible values stay masked, if the tokens of the session differ up to case and none of them occurs in
 the tokenized text other than where it was put.  For values and tokens that cannot be confused it does so only then.
 For types without brackets it is enough to look at the text between the pieces.
 */
module RoundTrip {
  import opened Decoding
  import opened Intervals
  import opened Options
  import opened Restoration
  import opened Sessions
  import Sorting
  import opened Splicing
  import opened Text
  import opened Tokenization

  // ----- A sound session can be decoded -----

  /** No two tokens of the mapping fold alike, and each opens with a bracket. */
  ghost predicate Decodable(mapping: map<string, string>) {
    && (forall t, u :: t in mapping && u in mapping && FoldAll(t) == FoldAll(u) ==> t == u)
    && forall t :: t in mapping ==> t != "" && t[0] == '['
  }

  lemma SoundTokensDiffer(s: Session)
    requires Sound(s)
    ensures TokensDiffer(s)
  {
    DistinctTypesTellTokensApart(s);
  }

  lemma MappedTokensAreDistinct(s: Session, mapping: map<string, string>, t: string, u: string)
    requires TokensDiffer(s) && MappingOk(s, mapping) && t in mapping && u in mapping && FoldAll(t) == FoldAll(u)
    ensures t == u
  {
    assert TokenIsIssued(s, mapping, t) && TokenIsIssued(s, mapping, u);
  }

  lemma MappedTokenOpens(s: Session, mapping: map<string, string>, t: string)
    requires HasOrigins(s) && MappingOk(s, mapping) && t in mapping
    ensures t != "" && t[0] == '['
  {
    assert TokenIsIssued(s, mapping, t);
    TokensOpenWithABracket(s, (mapping[t], true));
  }

  lemma SoundIsDecodable(s: Session, mapping: map<string, string>)
    requires HasOrigins(s) && TokensDiffer(s) && MappingOk(s, mapping)
    ensures Decodable(mapping)
  {
    forall t, u | t in mapping && u in mapping && FoldAll(t) == FoldAll(u) ensures t == u {
      MappedTokensAreDistinct(s, mapping, t, u);
    }
    forall t | t in mapping ensures t != "" && t[0] == '[' {
      MappedTokenOpens(s, mapping, t);
    }
  }

  lemma DecodableDecodes(mapping: map<string, string>, ordered: seq<string>, lookup: map<string, string>)
    requires Decodable(mapping)
    requires IsLookup(lookup, mapping) && IsPattern(ordered, lookup) && UsablePattern(ordered, lookup)
    ensures Decodes(mapping, ordered, lookup)
  {
    forall t | t in mapping ensures LooksUp(mapping, ordered, lookup, t) {
      assert FoldAll(t) in lookup;
      var u :| u in mapping && u != "" && FoldAll(u) == FoldAll(t) && lookup[FoldAll(t)] == mapping[u];
    }
    forall k | k in ordered ensures FoldedIn(mapping, k) {
      var t :| t in mapping && t != "" && FoldAll(t) == k;
    }
  }

  /** An irreversible token is none of the mapping's, not even up to case. */
  lemma IrreversibleIsUnknown(s: Session, mapping: map<string, string>, value: string)
    requires TokensDiffer(s) && MappingOk(s, mapping) && (value, false) in s.issued
    ensures Unknown(mapping, s.issued[(value, false)])
  {
    forall t | t in mapping ensures FoldAll(t) != FoldAll(s.issued[(value, false)]) {
      assert TokenIsIssued(s, mapping, t);
    }
  }

  lemma CarriedIsPlaced(s: Session, mapping: map<string, string>, text: string, p: Piece, e: Edit)
    requires TokensDiffer(s) && MappingOk(s, mapping)
    requires 0 <= p.start <= p.end <= |text| && CarriesToken(s, text, p, e)
    ensures Placed(mapping, text, p, e)
  {
    if p.reversible {
      assert ValueIsMapped(s, mapping, text[p.start..p.end]);
    } else {
      IrreversibleIsUnknown(s, mapping, text[p.start..p.end]);
    }
  }

  lemma CarriedArePlaced(s: Session, mapping: map<string, string>, text: string, ps: seq<Piece>, edits: seq<Edit>)
    requires TokensDiffer(s) && MappingOk(s, mapping)
    requires InText(text, ps) && |edits| == |ps| && CarriesTokens(s, text, ps, edits)
    ensures AllPlaced(mapping, text, ps, edits)
  {
    forall i | 0 <= i < |ps| ensures Placed(mapping, text, ps[i], edits[i]) {
      assert CarriesToken(s, text, ps[i], edits[i]);
      CarriedIsPlaced(s, mapping, text, ps[i], edits[i]);
    }
  }

  lemma SoundIsPlaced(s: Session, mapping: map<string, string>, text: string, ps: seq<Piece>, edits: seq<Edit>)
    requires Sound(s) && MappingOk(s, mapping)
    requires InText(text, ps) && |edits| == |ps| && CarriesTokens(s, text, ps, edits)
    ensures AllPlaced(mapping, text, ps, edits)
  {
    SoundTokensDiffer(s);
    CarriedArePlaced(s, mapping, text, ps, edits);
  }

  lemma SoundDecodes(s: Session, mapping: map<string, string>, ordered: seq<string>, lookup: map<string, string>)
    requires Sound(s) && MappingOk(s, mapping)
    requires IsLookup(lookup, mapping) && IsPattern(ordered, lookup) && UsablePattern(ordered, lookup)
    ensures Decodes(mapping, ordered, lookup)
  {
    SoundTokensDiffer(s);
    SoundIsDecodable(s, mapping);
    DecodableDecodes(mapping, ordered, lookup);
  }

  // ----- The round trip -----

  lemma RestorePlaced(
    text: string, ps: seq<Piece>, edits: seq<Edit>,
    mapping: map<string, string>, ordered: seq<string>, lookup: map<string, string>)
    requires InText(text, ps) && |edits| == |ps| && Fits(edits, 0, |text|) && AllPlaced(mapping, text, ps, edits)
    requires Decodes(mapping, ordered, lookup)
    ensures Fits(Residual(text, ps, edits), 0, |text|)
    ensures var result := Restored(Spliced(text, edits, 0), ordered, lookup);
            && (Undisturbed(text, edits, 0, mapping) ==> result == Spliced(text, Residual(text, ps, edits), 0))
            && (PlainValues(mapping) && PrefixFree(mapping) && !Undisturbed(text, edits, 0, mapping) ==>
                  result != Spliced(text, Residual(text, ps, edits), 0))
  {
    ResidualFits(text, ps, edits, 0);
    UndoneIsResidual(text, ps, edits, 0, mapping);
    RestoredIsUndoneIff(text, edits, mapping, ordered, lookup);
  }

  /**
   Restoring, with any pattern built from the mapping, a text whose edits carry the session's tokens.  Only the
   irreversible values stay masked if the text is undisturbed and, for values and tokens that cannot be confused, only
   then.
   */
  lemma RestoreCarried(
    s: Session, text: string, ps: seq<Piece>, edits: seq<Edit>, mapping: map<string, string>, result: string)
    requires InText(text, ps) && |edits| == |ps| && Fits(edits, 0, |text|) && CarriesTokens(s, text, ps, edits)
    requires Sound(s) && MappingOk(s, mapping)
    requires IsRestoration(Spliced(text, edits, 0), mapping, result)
    ensures Fits(Residual(text, ps, edits), 0, |text|)
    ensures Undisturbed(text, edits, 0, mapping) ==> result == Spliced(text, Residual(text, ps, edits), 0)
    ensures PlainValues(mapping) && PrefixFree(mapping) && !Undisturbed(text, edits, 0, mapping) ==>
              result != Spliced(text, Residual(text, ps, edits), 0)
  {
    var ordered, lookup :|
      IsLookup(lookup, mapping) && IsPattern(ordered, lookup) && UsablePattern(ordered, lookup)
      && result == Restored(Spliced(text, edits, 0), ordered, lookup);
    SoundDecodes(s, mapping, ordered, lookup);
    SoundIsPlaced(s, mapping, text, ps, edits);
    RestorePlaced(text, ps, edits, mapping, ordered, lookup);
  }

  lemma RoundTripOfPieces(
    s: Session, text: string, ps: seq<Piece>, later: Session, mapping: map<string, string>, r: Issues, result: string)
    requires InText(text, ps) && r == TokenizeAll(s, text, ps, map[])
    requires Extends(r.session, later) && Sound(later) && MappingOk(later, mapping)
    requires Fits(r.edits, 0, |text|) && IsRestoration(Spliced(text, r.edits, 0), mapping, result)
    ensures Fits(Residual(text, ps, r.edits), 0, |text|)
    ensures Undisturbed(text, r.edits, 0, mapping) ==> result == Spliced(text, Residual(text, ps, r.edits), 0)
    ensures PlainValues(mapping) && PrefixFree(mapping) ==>
              (result == Spliced(text, Residual(text, ps, r.edits), 0) <==> Undisturbed(text, r.edits, 0, mapping))
  {
    StillCarries(s, text, ps, r, later);
    RestoreCarried(later, text, ps, r.edits, mapping, result);
  }

  /** If every piece is reversible, nothing stays masked. */
  lemma NothingStaysMasked(
    s: Session, text: string, ps: seq<Piece>, later: Session, mapping: map<string, string>, r: Issues)
    requires InText(text, ps) && r == TokenizeAll(s, text, ps, map[])
    requires Extends(r.session, later) && Sound(later) && MappingOk(later, mapping)
    requires forall p :: p in ps ==> p.reversible
    requires Fits(Residual(text, ps, r.edits), 0, |text|)
    ensures Spliced(text, Residual(text, ps, r.edits), 0) == text
  {
    StillCarries(s, text, ps, r, later);
    SoundIsPlaced(later, mapping, text, ps, r.edits);
    AllReversibleIsIdentity(mapping, text, ps, r.edits);
  }

  /**
   Tokenize a text in any session, go on with the session as far as you like, then restore with the session's
   mapping.  If mapped tokens occur only where they were put, and for values and tokens that cannot be confused only
   then, the result is the original with only the irreversible values still masked.
   */
  lemma TokenizeThenRestore(
    s: Session, text: string, ds: seq<Detection>, later: Session, mapping: map<string, string>,
    r: Issues, result: string)
    requires InText(text, Accepted(text, ds)) && r == TokenizeAll(s, text, Accepted(text, ds), map[])
    requires Extends(r.session, later) && Sound(later) && MappingOk(later, mapping)
    requires Fits(r.edits, 0, |text|) && IsRestoration(Spliced(text, r.edits, 0), mapping, result)
    ensures Fits(Residual(text, Accepted(text, ds), r.edits), 0, |text|)
    ensures Undisturbed(text, r.edits, 0, mapping) ==>
              result == Spliced(text, Residual(text, Accepted(text, ds), r.edits), 0)
    ensures PlainValues(mapping) && PrefixFree(mapping) ==>
              (result == Spliced(text, Residual(text, Accepted(text, ds), r.edits), 0)
               <==> Undisturbed(text, r.edits, 0, mapping))
  {
    RoundTripOfPieces(s, text, Accepted(text, ds), later, mapping, r, result);
  }

  // ----- Types without brackets: only the gaps matter -----

  predicate NoBrackets(t: string) {
    forall i :: 0 <= i < |t| ==> t[i] != '[' && t[i] != ']'
  }

  ghost predicate Bracketless(s: Session) {
    forall t :: t in s.counters ==> NoBrackets(t)
  }

  lemma TokenShape(t: string, n: nat)
    requires NoBrackets(t)
    ensures Bracketed(TokenText(t, n))
  {
    DecimalIsDigits(n);
    InnerText(t, n);
    var token, inner := TokenText(t, n), t + "_" + Decimal(n);
    assert token[|token| - 1] == ']';
    forall i | 0 < i < |token| - 1 ensures token[i] != '[' && token[i] != ']' {
      assert token[i] == inner[i - 1];
    }
  }

  lemma TokensAreBracketed(s: Session, k: Key)
    requires HasOrigins(s) && Bracketless(s) && k in s.issued
    ensures Bracketed(s.issued[k])
  {
    var origin: map<Key, Origin> :| Explains(s, origin);
    var o := OriginOf(s, origin, k);
    TokenShape(o.shortType, o.index);
  }

  lemma FoldKeepsBrackets(s: string)
    requires Bracketed(s)
    ensures Bracketed(FoldAll(s))
  {
  }

  lemma SessionIsBracketed(s: Session, mapping: map<string, string>)
    requires HasOrigins(s) && Bracketless(s) && MappingOk(s, mapping)
    ensures BracketedMapping(mapping)
  {
    forall t | t in mapping ensures Bracketed(FoldAll(t)) {
      assert TokenIsIssued(s, mapping, t);
      TokensAreBracketed(s, (mapping[t], true));
      FoldKeepsBrackets(t);
    }
  }

  lemma CarriedAreBracketed(s: Session, text: string, ps: seq<Piece>, edits: seq<Edit>)
    requires InText(text, ps) && |edits| == |ps| && CarriesTokens(s, text, ps, edits)
    requires HasOrigins(s) && Bracketless(s)
    ensures BracketedEdits(edits)
  {
    forall i | 0 <= i < |edits| ensures Bracketed(edits[i].replacement) {
      assert CarriesToken(s, text, ps[i], edits[i]);
      TokensAreBracketed(s, (text[ps[i].start..ps[i].end], ps[i].reversible));
    }
  }

  /**
   For types without brackets no token is the beginning of another, and the tokenized text is undisturbed exactly when
   no mapped token occurs in the text between the pieces.
   */
  lemma OnlyTheGapsMatter(
    s: Session, text: string, ps: seq<Piece>, edits: seq<Edit>, mapping: map<string, string>)
    requires InText(text, ps) && |edits| == |ps| && Fits(edits, 0, |text|) && CarriesTokens(s, text, ps, edits)
    requires Sound(s) && Bracketless(s) && MappingOk(s, mapping)
    ensures PrefixFree(mapping)
    ensures Undisturbed(text, edits, 0, mapping) <==> NoTokenOutside(text, edits, 0, mapping)
  {
    SessionIsBracketed(s, mapping);
    BracketedArePrefixFree(mapping);
    SoundIsPlaced(s, mapping, text, ps, edits);
    CarriedAreBracketed(s, text, ps, edits);
    UndisturbedIff(text, ps, edits, 0, mapping);
  }

  // ----- A fresh session -----

  lemma {:induction false} AcceptedTypes(ps: seq<Piece>)
    ensures TypesOf(AcceptAll(ps)) <= TypesOf(ps)
  {
    if ps == [] {
    } else {
      AcceptedTypes(Front(ps));
      var acc, p := AcceptAll(Front(ps)), Last(ps);
      assert ps == Front(ps) + [p] && p in ps;
      NextTypes(acc, p);
    }
  }

  lemma NextTypes(acc: seq<Piece>, p: Piece)
    ensures TypesOf(AcceptNext(acc, p)) <= TypesOf(acc) + {Short(p.entityType)}
  {
    forall q | q in AcceptNext(acc, p) ensures Short(q.entityType) in TypesOf(acc) + {Short(p.entityType)} {
      if q !in acc && q != p {
        assert Last(acc) in acc && q.entityType == Last(acc).entityType;
      }
    }
  }

  lemma ValidTypes(text: string, ds: seq<Detection>)
    ensures TypesOf(Accepted(text, ds)) <= TypesOf(Valid(text, ds))
  {
    var ordered := Sorting.Sort(Valid(text, ds), Tokenization.LongestFirst);
    Sorting.SortKeepsMembers(Valid(text, ds), Tokenization.LongestFirst);
    AcceptedTypes(ordered);
  }

  /**
   The common case: a fresh session, one text of which every detected value is reversible, its own mapping, and types
   that differ up to case.  The text comes back exactly if, and for values and tokens that cannot be confused only if,
   the new tokens occur only where they were put.
   */
  lemma FreshSessionRoundTrip(seed: nat, text: string, ds: seq<Detection>, r: Issues, result: string)
    requires DistinctUpToCase(TypesOf(Valid(text, ds))) && InText(text, Accepted(text, ds))
    requires r == TokenizeAll(Session(seed, map[], map[]), text, Accepted(text, ds), map[])
    requires Fits(r.edits, 0, |text|) && IsRestoration(Spliced(text, r.edits, 0), r.mapping, result)
    requires forall p :: p in Accepted(text, ds) ==> p.reversible
    ensures Undisturbed(text, r.edits, 0, r.mapping) ==> result == text
    ensures PlainValues(r.mapping) && PrefixFree(r.mapping) ==> (result == text <==> Undisturbed(text, r.edits, 0, r.mapping))
  {
    var s := Session(seed, map[], map[]);
    FreshSessionIsReady(seed, text, ds);
    TokenizeThenRestore(s, text, ds, r.session, r.mapping, r, result);
    NothingStaysMasked(s, text, Accepted(text, ds), r.session, r.mapping, r);
  }

  lemma FreshPiecesAreReady(seed: nat, text: string, ps: seq<Piece>)
    requires DistinctUpToCase(TypesOf(ps)) && InText(text, ps)
    ensures var r := TokenizeAll(Session(seed, map[], map[]), text, ps, map[]);
            Sound(r.session) && MappingOk(r.session, r.mapping)
  {
    var s := Session(seed, map[], map[]);
    FreshSessionIsTraced(seed);
    TokenizeKeepsTraced(s, text, ps, map[]);
    TokenizeKeepsMapping(s, text, ps, map[]);
    TokenizeCounts(s, text, ps, map[]);
    DistinctTypesAreSound(TokenizeAll(s, text, ps, map[]).session, TypesOf(ps));
  }

  lemma FewerTypes(a: set<string>, b: set<string>)
    requires a <= b && DistinctUpToCase(b)
    ensures DistinctUpToCase(a)
  {
  }

  lemma FreshSessionIsReady(seed: nat, text: string, ds: seq<Detection>)
    requires DistinctUpToCase(TypesOf(Valid(text, ds))) && InText(text, Accepted(text, ds))
    ensures var r := TokenizeAll(Session(seed, map[], map[]), text, Accepted(text, ds), map[]);
            Sound(r.session) && MappingOk(r.session, r.mapping)
  {
    ValidTypes(text, ds);
    FewerTypes(TypesOf(Accepted(text, ds)), TypesOf(Valid(text, ds)));
    FreshPiecesAreReady(seed, text, Accepted(text, ds));
  }

  // ----- What goes wrong otherwise -----

  /** A text that merely spells a token of the session comes back as that token's value. */
  lemma LookalikeIsRewritten(s: Session, mapping: map<string, string>, value: string, result: string)
    requires Sound(s) && MappingOk(s, mapping) && (value, true) in s.issued
    requires IsRestoration(s.issued[(value, true)], mapping, result)
    ensures result == value
  {
    SoundTokensDiffer(s);
    SoundIsDecodable(s, mapping);
    assert ValueIsMapped(s, mapping, value);
    LoneTokenIsRestored(mapping, s.issued[(value, true)], result);
  }

  lemma LoneTokenIsRestored(mapping: map<string, string>, token: string, result: string)
    requires Decodable(mapping) && token in mapping && IsRestoration(token, mapping, result)
    ensures result == mapping[token]
  {
    var ordered, lookup :|
      IsLookup(lookup, mapping) && IsPattern(ordered, lookup) && UsablePattern(ordered, lookup)
      && result == Restored(token, ordered, lookup);
    DecodableDecodes(mapping, ordered, lookup);
    LoneTokenIsDecoded(mapping, ordered, lookup, token);
  }

  lemma LoneTokenIsDecoded(
    mapping: map<string, string>, ordered: seq<string>, lookup: map<string, string>, token: string)
    requires Decodes(mapping, ordered, lookup) && token in mapping
    ensures Restored(token, ordered, lookup) == mapping[token]
  {
    assert token + "" == token;
    TokenComesBack(mapping, ordered, lookup, token, "");
    assert mapping[token] + "" == mapping[token];
  }

  /** The condition on values is needed: a value that spells its own token is restored to itself wherever it occurs. */
  lemma SelfNamedValueIsHarmless(result: string)
    ensures var first := TokenFor(Session(0, map[], map[]), "[X_0]", Piece("X", 0, 5, true), map[]);
            && first.token == "[X_0]" && !NoTokenIn("[X_0]", first.mapping)
            && (IsRestoration("[X_0]", first.mapping, result) ==> result == "[X_0]")
  {
    SpelledOut();
    var mapping := map["[X_0]" := "[X_0]"];
    OccursInItself("[X_0]");
    assert "[X_0]" in mapping;
    if IsRestoration("[X_0]", mapping, result) {
      LoneTokenIsRestored(mapping, "[X_0]", result);
    }
  }

  lemma SpelledOut()
    ensures Short("X") == "X" && TokenText("X", 0) == "[X_0]"
    ensures Short("a[X") == "a[X" && TokenText("a[X", 0) == "[a[X_0]"
  {
    assert Decimal(0) == "0";
  }

  lemma OccursInItself(t: string)
    ensures MatchesFront(t[0..], FoldAll(t))
  {
    assert t[0..] == t && t[..|t|] == t;
  }

  lemma TwoTypes()
    ensures var first := TokenFor(Session(0, map[], map[]), "q", Piece("a[X", 0, 1, true), map[]);
            var second := TokenFor(first.session, "w", Piece("X", 2, 3, true), first.mapping);
            && second.session == Session(0, map["a[X" := 1, "X" := 1], map[("q", true) := "[a[X_0]", ("w", true) := "[X_0]"])
            && second.mapping == map["[a[X_0]" := "q", "[X_0]" := "w"] && second.token == "[X_0]"
  {
    SpelledOut();
    assert "X" != "a[X";
  }

  /**
   Prefix-freedom is needed too.  Let one token begin with another, as `[X_0]b_0]` does with `[X_0]`, and let their
   values differ by the same ending: taking the longer token where the shorter one stands then does no harm.
   */
  lemma LongerTokenIsHarmless(token: string, ending: string, value: string, result: string)
    requires token != "" && token[0] == '[' && ending != ""
    ensures var mapping := map[token := value, token + ending := value + ending];
            && !LongestHere(token, ending, mapping)
            && (IsRestoration(token + ending, mapping, result) ==> result == value + ending)
  {
    var longer := token + ending;
    var mapping := map[token := value, longer := value + ending];
    MatchesItself(longer, "");
    assert longer + "" == longer && longer in mapping;
    assert |FoldAll(token)| != |FoldAll(longer)| && longer[0] == token[0];
    if IsRestoration(longer, mapping, result) {
      LoneTokenIsRestored(mapping, longer, result);
    }
  }

  /**
   With brackets in types the gaps are not enough: after values of the types `a[X` and `X`, the text `[aw` of which `w`
   is detected has no token in its gap `[a`, yet gap and token together spell the other token, whose value comes back.
   */
  lemma BracketedTypeCapturesTheGap(result: string)
    ensures var first := TokenFor(Session(0, map[], map[]), "q", Piece("a[X", 0, 1, true), map[]);
            var second := TokenFor(first.session, "w", Piece("X", 2, 3, true), first.mapping);
            && CaseDistinct(second.session) && NoTokenIn("[a", second.mapping)
            && (IsRestoration("[a" + second.token, second.mapping, result) ==> result == "q")
  {
    TwoTypes();
    var mapping := map["[a[X_0]" := "q", "[X_0]" := "w"];
    TwoTokens(mapping);
    assert |FoldAll("X")| != |FoldAll("a[X")|;
    if IsRestoration("[a" + "[X_0]", mapping, result) {
      LoneTokenIsRestored(mapping, "[a[X_0]", result);
    }
  }

  lemma TwoTokens(mapping: map<string, string>)
    requires mapping == map["[a[X_0]" := "q", "[X_0]" := "w"]
    ensures Decodable(mapping) && NoTokenIn("[a", mapping) && "[a" + "[X_0]" == "[a[X_0]"
  {
    assert |FoldAll("[a[X_0]")| == 7 && |FoldAll("[X_0]")| == 5;
  }

  /**
   Types that differ in case only are not told apart: they start from the same index, so their first tokens are the same
   token to the case-insensitive restorer, and the first value comes back as the second.
   */
  lemma CaseTwinsCollide(seed: nat, result: string)
    ensures var first := TokenFor(Session(seed, map[], map[]), "v", Piece("NAME", 0, 1, true), map[]);
            var second := TokenFor(first.session, "w", Piece("Name", 0, 1, true), first.mapping);
            var order := [first.token, second.token];
            && first.token != second.token && FoldAll(first.token) == FoldAll(second.token)
            && second.mapping == map[first.token := "v", second.token := "w"]
            && (IsRestorationIn(first.token, second.mapping, order, result) ==> result == "w")
  {
    var a, b := TokenText("NAME", seed), TokenText("Name", seed);
    assert Short("NAME") == "NAME" && Short("Name") == "Name";
    assert a[2] == 'A' && b[2] == 'a';
    assert FoldAll("NAME") == FoldAll("Name");
    TokenTextsAlikeIff("NAME", seed, "Name", seed);
    var mapping := map[a := "v", b := "w"];
    if IsRestorationIn(a, mapping, [a, b], result) {
      LastTwinWins(a, b, mapping, result);
    }
  }

  lemma LastTwinWins(a: string, b: string, mapping: map<string, string>, result: string)
    requires a != "" && FoldAll(a) == FoldAll(b) && mapping == map[a := "v", b := "w"] && a != b
    requires IsRestorationIn(a, mapping, [a, b], result)
    ensures result == "w"
  {
    assert [a, b][..1] == [a] && [a][..0] == [];
    var lookup := LookupOf([a, b], mapping);
    assert LookupOf([a], mapping) == map[FoldAll(a) := "v"];
    assert lookup == map[FoldAll(a) := "w"];
    var ordered :| IsPattern(ordered, lookup) && UsablePattern(ordered, lookup) && result == Restored(a, ordered, lookup);
    assert a + "" == a;
    MatchesItself(a, "");
    LongestIsFirst(a, ordered, FoldAll(a));
    RestoreMatched(a, "", ordered, lookup);
    assert "w" + "" == "w";
  }
}
