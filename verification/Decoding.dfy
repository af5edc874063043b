/**
 Restoring a text into which tokens were put, whatever the tokens look like.

 The result is the text with the mapped tokens undone if mapped tokens occur only where they were put; for values and
 tokens that cannot be confused it is so only then.  For bracketed tokens it is enough to look at the gaps.
 */
module Decoding {
  import opened Options
  import opened Restoration
  import opened Sorting
  import opened Splicing
  import opened Text
  import opened Tokenization

  // ----- What is put, and how it is looked up -----

  /** The pattern consists of the folded tokens of the mapping, and each is looked up as that token's value. */
  ghost predicate Decodes(mapping: map<string, string>, ordered: seq<string>, lookup: map<string, string>) {
    && SortedBy(ordered, Restoration.LongestFirst) && UsablePattern(ordered, lookup)
    && (forall t :: t in mapping ==> LooksUp(mapping, ordered, lookup, t))
    && (forall k :: k in ordered ==> FoldedIn(mapping, k))
  }

  ghost predicate LooksUp(mapping: map<string, string>, ordered: seq<string>, lookup: map<string, string>, t: string)
    requires t in mapping
  {
    t != "" && t[0] == '[' && FoldAll(t) in ordered && FoldAll(t) in lookup && lookup[FoldAll(t)] == mapping[t]
  }

  ghost predicate FoldedIn(mapping: map<string, string>, k: string) {
    exists t :: t in mapping && FoldAll(t) == k
  }

  /** A reversible piece has its value under its token; the token of an irreversible one is none of the mapping's. */
  ghost predicate Placed(mapping: map<string, string>, text: string, p: Piece, e: Edit)
    requires 0 <= p.start <= p.end <= |text|
  {
    && e.start == p.start && e.end == p.end
    && if p.reversible then e.replacement in mapping && mapping[e.replacement] == text[p.start..p.end]
       else Unknown(mapping, e.replacement)
  }

  ghost predicate Unknown(mapping: map<string, string>, token: string) {
    forall t :: t in mapping ==> FoldAll(t) != FoldAll(token)
  }

  ghost predicate AllPlaced(mapping: map<string, string>, text: string, ps: seq<Piece>, edits: seq<Edit>)
    requires InText(text, ps) && |edits| == |ps|
  {
    forall i :: 0 <= i < |ps| ==> Placed(mapping, text, ps[i], edits[i])
  }

  lemma PlacedTail(mapping: map<string, string>, text: string, ps: seq<Piece>, edits: seq<Edit>)
    requires InText(text, ps) && |edits| == |ps| > 0 && AllPlaced(mapping, text, ps, edits)
    ensures Placed(mapping, text, ps[0], edits[0]) && AllPlaced(mapping, text, ps[1..], edits[1..])
  {
    forall i | 0 <= i < |ps[1..]| ensures Placed(mapping, text, ps[1..][i], edits[1..][i]) {
      assert Placed(mapping, text, ps[i + 1], edits[i + 1]);
    }
  }

  // ----- Where tokens may occur -----

  /** No token of the mapping begins in `front`, even if it were to run on into `tail`. */
  ghost predicate NoTokenWithin(front: string, tail: string, mapping: map<string, string>) {
    forall i, t :: 0 <= i < |front| && t in mapping ==> !MatchesFront((front + tail)[i..], FoldAll(t))
  }

  /** No longer token of the mapping matches where `token` stands. */
  ghost predicate LongestHere(token: string, tail: string, mapping: map<string, string>) {
    forall t :: t in mapping && MatchesFront(token + tail, FoldAll(t)) ==> |t| <= |token|
  }

  ghost predicate TokenUndisturbed(token: string, rest: string, mapping: map<string, string>) {
    if token in mapping then LongestHere(token, rest, mapping) else NoTokenWithin(token, rest, mapping)
  }

  /** In the rest of the tokenized text, mapped tokens occur only where an edit put one, and no longer one there. */
  ghost predicate Undisturbed(text: string, edits: seq<Edit>, cursor: nat, mapping: map<string, string>)
    requires Fits(edits, cursor, |text|)
    decreases |edits|
  {
    if edits == [] then NoTokenWithin(text[cursor..], "", mapping)
    else
      var e, rest := edits[0], Spliced(text, edits[1..], edits[0].end);
      && NoTokenWithin(text[cursor..e.start], e.replacement + rest, mapping)
      && TokenUndisturbed(e.replacement, rest, mapping)
      && Undisturbed(text, edits[1..], e.end, mapping)
  }

  lemma NoTokenIsNoMatch(
    mapping: map<string, string>, ordered: seq<string>, lookup: map<string, string>, front: string, tail: string)
    requires Decodes(mapping, ordered, lookup)
    ensures NoTokenWithin(front, tail, mapping) <==> NoMatchWithin(front, tail, ordered)
  {
    if NoTokenWithin(front, tail, mapping) {
      forall i, k | 0 <= i < |front| && k in ordered ensures !MatchesFront((front + tail)[i..], k) {
        assert FoldedIn(mapping, k);
      }
    }
    if NoMatchWithin(front, tail, ordered) {
      forall i, t | 0 <= i < |front| && t in mapping ensures !MatchesFront((front + tail)[i..], FoldAll(t)) {
        assert LooksUp(mapping, ordered, lookup, t);
      }
    }
  }

  lemma MatchesItself(token: string, rest: string)
    ensures MatchesFront(token + rest, FoldAll(token))
  {
    assert (token + rest)[..|token|] == token;
  }

  lemma TokenIsTaken(
    mapping: map<string, string>, ordered: seq<string>, lookup: map<string, string>, token: string, rest: string)
    requires Decodes(mapping, ordered, lookup) && token in mapping && LongestHere(token, rest, mapping)
    ensures token != "" && FirstMatch(token + rest, ordered) == Some(FoldAll(token))
  {
    assert LooksUp(mapping, ordered, lookup, token);
    MatchesItself(token, rest);
    forall k | k in ordered && MatchesFront(token + rest, k) ensures |k| <= |token| {
      assert FoldedIn(mapping, k);
    }
    LongestIsFirst(token + rest, ordered, FoldAll(token));
  }

  /** What a token is turned into where nothing disturbs it. */
  function Decoded(token: string, mapping: map<string, string>): string {
    Get(mapping, token).GetOr(token)
  }

  lemma TokenComesBack(
    mapping: map<string, string>, ordered: seq<string>, lookup: map<string, string>, token: string, rest: string)
    requires Decodes(mapping, ordered, lookup) && TokenUndisturbed(token, rest, mapping)
    ensures Restored(token + rest, ordered, lookup) == Decoded(token, mapping) + Restored(rest, ordered, lookup)
  {
    if token in mapping {
      assert LooksUp(mapping, ordered, lookup, token);
      TokenIsTaken(mapping, ordered, lookup, token, rest);
      RestoreMatched(token, rest, ordered, lookup);
    } else {
      NoTokenIsNoMatch(mapping, ordered, lookup, token, rest);
      RestoreUnmatched(token, rest, ordered, lookup);
    }
  }

  // ----- The text with its tokens undone -----

  /** The text in which every edit leaves what its token stands for. */
  function Undone(text: string, edits: seq<Edit>, cursor: nat, mapping: map<string, string>): string
    requires Fits(edits, cursor, |text|)
    decreases |edits|
  {
    if edits == [] then text[cursor..]
    else
      text[cursor..edits[0].start]
      + (Decoded(edits[0].replacement, mapping) + Undone(text, edits[1..], edits[0].end, mapping))
  }

  lemma SplicedAtHead(text: string, edits: seq<Edit>, cursor: nat)
    requires Fits(edits, cursor, |text|) && edits != []
    ensures Spliced(text, edits, cursor)
         == text[cursor..edits[0].start] + (edits[0].replacement + Spliced(text, edits[1..], edits[0].end))
  {
    SplicedHead(text, edits, cursor);
    Associate(text[cursor..edits[0].start], edits[0].replacement, Spliced(text, edits[1..], edits[0].end));
  }

  lemma RestoreLastGap(gap: string, mapping: map<string, string>, ordered: seq<string>, lookup: map<string, string>)
    requires Decodes(mapping, ordered, lookup) && NoTokenWithin(gap, "", mapping)
    ensures Restored(gap, ordered, lookup) == gap
  {
    NoTokenIsNoMatch(mapping, ordered, lookup, gap, "");
    RestoreUnmatched(gap, "", ordered, lookup);
    assert gap + "" == gap;
  }

  /** One gap and one token. */
  lemma RestoreOneEdit(
    gap: string, token: string, rest: string, mapping: map<string, string>, ordered: seq<string>, lookup: map<string, string>)
    requires Decodes(mapping, ordered, lookup)
    requires NoTokenWithin(gap, token + rest, mapping) && TokenUndisturbed(token, rest, mapping)
    ensures Restored(gap + (token + rest), ordered, lookup)
         == gap + (Decoded(token, mapping) + Restored(rest, ordered, lookup))
  {
    NoTokenIsNoMatch(mapping, ordered, lookup, gap, token + rest);
    RestoreUnmatched(gap, token + rest, ordered, lookup);
    TokenComesBack(mapping, ordered, lookup, token, rest);
  }

  /** What is undisturbed is undone. */
  lemma {:induction false} RestoredIsUndone(
    text: string, edits: seq<Edit>, cursor: nat,
    mapping: map<string, string>, ordered: seq<string>, lookup: map<string, string>)
    requires Fits(edits, cursor, |text|) && Decodes(mapping, ordered, lookup) && Undisturbed(text, edits, cursor, mapping)
    ensures Restored(Spliced(text, edits, cursor), ordered, lookup) == Undone(text, edits, cursor, mapping)
    decreases |edits|
  {
    if edits == [] {
      RestoreLastGap(text[cursor..], mapping, ordered, lookup);
    } else {
      var e, rest := edits[0], Spliced(text, edits[1..], edits[0].end);
      SplicedAtHead(text, edits, cursor);
      RestoreOneEdit(text[cursor..e.start], e.replacement, rest, mapping, ordered, lookup);
      RestoredIsUndone(text, edits[1..], e.end, mapping, ordered, lookup);
    }
  }

  // ----- What is disturbed is not undone -----

  /** No value of the mapping is empty or begins with a bracket. */
  ghost predicate PlainValues(mapping: map<string, string>) {
    forall t :: t in mapping ==> mapping[t] != "" && mapping[t][0] != '['
  }

  /** No token of the mapping is the beginning of another. */
  ghost predicate PrefixFree(mapping: map<string, string>) {
    forall t, u :: t in mapping && u in mapping && FoldAll(t) <= FoldAll(u) ==> FoldAll(t) == FoldAll(u)
  }

  lemma PatternIsPlain(mapping: map<string, string>, ordered: seq<string>, lookup: map<string, string>)
    requires Decodes(mapping, ordered, lookup) && PlainValues(mapping)
    ensures OpensAll(ordered) && PlainOn(ordered, lookup)
  {
    forall k | k in ordered ensures k != "" && k[0] == '[' && lookup[k] != "" && lookup[k][0] != '[' {
      assert FoldedIn(mapping, k);
      var t :| t in mapping && FoldAll(t) == k;
      assert LooksUp(mapping, ordered, lookup, t);
    }
  }

  /** Two keys that match at one place, the shorter first. */
  lemma ShorterIsAPrefix(text: string, a: string, b: string)
    requires MatchesFront(text, a) && MatchesFront(text, b) && |a| <= |b|
    ensures a <= b
  {
    MatchedCharacters(text, a);
    MatchedCharacters(text, b);
  }

  lemma PrefixFreeIsLongest(token: string, rest: string, mapping: map<string, string>)
    requires PrefixFree(mapping) && token in mapping
    ensures LongestHere(token, rest, mapping)
  {
    MatchesItself(token, rest);
    forall t | t in mapping && MatchesFront(token + rest, FoldAll(t)) ensures |t| <= |token| {
      if |token| <= |t| {
        ShorterIsAPrefix(token + rest, FoldAll(token), FoldAll(t));
      }
    }
  }

  lemma SameRest(front: string, a: string, b: string)
    ensures front + a == front + b ==> a == b
  {
    assert (front + a)[|front|..] == a && (front + b)[|front|..] == b;
  }

  /** A token in a gap, or inside an unknown token, shows in the result. */
  lemma TokenWithinShows(
    front: string, tail: string, tail': string,
    mapping: map<string, string>, ordered: seq<string>, lookup: map<string, string>)
    requires Decodes(mapping, ordered, lookup) && PlainValues(mapping) && !NoTokenWithin(front, tail, mapping)
    ensures Restored(front + tail, ordered, lookup) != front + tail'
  {
    NoTokenIsNoMatch(mapping, ordered, lookup, front, tail);
    PatternIsPlain(mapping, ordered, lookup);
    MatchWithinDiffers(front, tail, tail', ordered, lookup);
  }

  lemma DisturbanceShows(
    gap: string, token: string, rest: string, wanted: string,
    mapping: map<string, string>, ordered: seq<string>, lookup: map<string, string>)
    requires Decodes(mapping, ordered, lookup) && PlainValues(mapping) && PrefixFree(mapping)
    requires NoTokenWithin(gap, token + rest, mapping) && TokenUndisturbed(token, rest, mapping) ==>
               Restored(rest, ordered, lookup) != wanted
    ensures Restored(gap + (token + rest), ordered, lookup) != gap + (Decoded(token, mapping) + wanted)
  {
    if !NoTokenWithin(gap, token + rest, mapping) {
      TokenWithinShows(gap, token + rest, Decoded(token, mapping) + wanted, mapping, ordered, lookup);
    } else if TokenUndisturbed(token, rest, mapping) {
      RestoreOneEdit(gap, token, rest, mapping, ordered, lookup);
      SameRest(gap, Decoded(token, mapping) + Restored(rest, ordered, lookup), Decoded(token, mapping) + wanted);
      SameRest(Decoded(token, mapping), Restored(rest, ordered, lookup), wanted);
    } else {
      UnknownTokenShows(gap, token, rest, wanted, mapping, ordered, lookup);
    }
  }

  lemma UnknownTokenShows(
    gap: string, token: string, rest: string, wanted: string,
    mapping: map<string, string>, ordered: seq<string>, lookup: map<string, string>)
    requires Decodes(mapping, ordered, lookup) && PlainValues(mapping) && PrefixFree(mapping)
    requires NoTokenWithin(gap, token + rest, mapping) && !TokenUndisturbed(token, rest, mapping)
    ensures Restored(gap + (token + rest), ordered, lookup) != gap + (Decoded(token, mapping) + wanted)
  {
    if token in mapping {
      PrefixFreeIsLongest(token, rest, mapping);
    }
    TokenWithinShows(token, rest, wanted, mapping, ordered, lookup);
    NoTokenIsNoMatch(mapping, ordered, lookup, gap, token + rest);
    RestoreUnmatched(gap, token + rest, ordered, lookup);
    SameRest(gap, Restored(token + rest, ordered, lookup), token + wanted);
  }

  /** The first token in the wrong place shows in the result. */
  lemma {:induction false} DisturbedIsNotUndone(
    text: string, edits: seq<Edit>, cursor: nat,
    mapping: map<string, string>, ordered: seq<string>, lookup: map<string, string>)
    requires Fits(edits, cursor, |text|) && Decodes(mapping, ordered, lookup)
    requires PlainValues(mapping) && PrefixFree(mapping) && !Undisturbed(text, edits, cursor, mapping)
    ensures Restored(Spliced(text, edits, cursor), ordered, lookup) != Undone(text, edits, cursor, mapping)
    decreases |edits|
  {
    if edits == [] {
      var gap := text[cursor..];
      TokenWithinShows(gap, "", "", mapping, ordered, lookup);
      assert gap + "" == gap;
    } else {
      var e, rest := edits[0], Spliced(text, edits[1..], edits[0].end);
      var wanted := Undone(text, edits[1..], e.end, mapping);
      SplicedAtHead(text, edits, cursor);
      if !Undisturbed(text, edits[1..], e.end, mapping) {
        DisturbedIsNotUndone(text, edits[1..], e.end, mapping, ordered, lookup);
      }
      DisturbanceShows(text[cursor..e.start], e.replacement, rest, wanted, mapping, ordered, lookup);
    }
  }

  /** Exact for every mapping whose values and tokens cannot be confused. */
  lemma RestoredIsUndoneIff(
    text: string, edits: seq<Edit>, mapping: map<string, string>, ordered: seq<string>, lookup: map<string, string>)
    requires Fits(edits, 0, |text|) && Decodes(mapping, ordered, lookup)
    ensures Undisturbed(text, edits, 0, mapping) ==>
              Restored(Spliced(text, edits, 0), ordered, lookup) == Undone(text, edits, 0, mapping)
    ensures PlainValues(mapping) && PrefixFree(mapping) && !Undisturbed(text, edits, 0, mapping) ==>
              Restored(Spliced(text, edits, 0), ordered, lookup) != Undone(text, edits, 0, mapping)
  {
    if Undisturbed(text, edits, 0, mapping) {
      RestoredIsUndone(text, edits, 0, mapping, ordered, lookup);
    } else if PlainValues(mapping) && PrefixFree(mapping) {
      DisturbedIsNotUndone(text, edits, 0, mapping, ordered, lookup);
    }
  }

  // ----- The values back in place -----

  /** The edits that remain once every reversible value is back in place. */
  function Residual(text: string, ps: seq<Piece>, edits: seq<Edit>): (r: seq<Edit>)
    requires InText(text, ps) && |edits| == |ps|
    ensures |r| == |ps|
  {
    seq(|ps|, i requires 0 <= i < |ps| =>
      if ps[i].reversible then Edit(edits[i].start, edits[i].end, text[ps[i].start..ps[i].end]) else edits[i])
  }

  lemma {:induction false} ResidualFits(text: string, ps: seq<Piece>, edits: seq<Edit>, cursor: nat)
    requires InText(text, ps) && |edits| == |ps| && Fits(edits, cursor, |text|)
    ensures Fits(Residual(text, ps, edits), cursor, |text|)
    decreases |edits|
  {
    if edits == [] {
    } else {
      ResidualFits(text, ps[1..], edits[1..], edits[0].end);
      assert Residual(text, ps, edits)[1..] == Residual(text, ps[1..], edits[1..]);
    }
  }

  lemma ResidualTail(text: string, ps: seq<Piece>, edits: seq<Edit>, cursor: nat)
    requires InText(text, ps) && |edits| == |ps| > 0 && Fits(edits, cursor, |text|)
    requires Fits(Residual(text, ps, edits), cursor, |text|)
    ensures Residual(text, ps, edits)[1..] == Residual(text, ps[1..], edits[1..])
    ensures Fits(Residual(text, ps[1..], edits[1..]), edits[0].end, |text|)
  {
  }

  /** Undoing the tokens leaves the original with only the irreversible values still masked. */
  lemma {:induction false} UndoneIsResidual(
    text: string, ps: seq<Piece>, edits: seq<Edit>, cursor: nat, mapping: map<string, string>)
    requires InText(text, ps) && |edits| == |ps| && Fits(edits, cursor, |text|) && AllPlaced(mapping, text, ps, edits)
    requires Fits(Residual(text, ps, edits), cursor, |text|)
    ensures Undone(text, edits, cursor, mapping) == Spliced(text, Residual(text, ps, edits), cursor)
    decreases |edits|
  {
    if edits == [] {
    } else {
      PlacedTail(mapping, text, ps, edits);
      ResidualTail(text, ps, edits, cursor);
      UndoneIsResidual(text, ps[1..], edits[1..], edits[0].end, mapping);
      SplicedAtHead(text, Residual(text, ps, edits), cursor);
      assert edits[0].replacement in mapping <==> ps[0].reversible;
    }
  }

  /** Putting each value back where it was changes nothing. */
  lemma {:induction false} IdentityEdits(text: string, edits: seq<Edit>, cursor: nat)
    requires Fits(edits, cursor, |text|)
    requires forall i :: 0 <= i < |edits| ==>
               0 <= edits[i].start <= edits[i].end <= |text| && edits[i].replacement == text[edits[i].start..edits[i].end]
    ensures Spliced(text, edits, cursor) == text[cursor..]
    decreases |edits|
  {
    if edits == [] {
    } else {
      var e := edits[0];
      IdentityEdits(text, edits[1..], e.end);
      assert text[cursor..] == text[cursor..e.start] + text[e.start..e.end] + text[e.end..];
    }
  }

  lemma ReversibleComesBack(mapping: map<string, string>, text: string, ps: seq<Piece>, edits: seq<Edit>, i: nat)
    requires InText(text, ps) && |edits| == |ps| && i < |ps| && Placed(mapping, text, ps[i], edits[i]) && ps[i].reversible
    ensures Residual(text, ps, edits)[i] == Edit(ps[i].start, ps[i].end, text[ps[i].start..ps[i].end])
  {
  }

  lemma AllReversibleIsIdentity(mapping: map<string, string>, text: string, ps: seq<Piece>, edits: seq<Edit>)
    requires InText(text, ps) && |edits| == |ps| && AllPlaced(mapping, text, ps, edits)
    requires forall p :: p in ps ==> p.reversible
    requires Fits(Residual(text, ps, edits), 0, |text|)
    ensures Spliced(text, Residual(text, ps, edits), 0) == text
  {
    var back := Residual(text, ps, edits);
    forall i | 0 <= i < |back|
      ensures 0 <= back[i].start <= back[i].end <= |text| && back[i].replacement == text[back[i].start..back[i].end]
    {
      assert ps[i] in ps && Placed(mapping, text, ps[i], edits[i]);
      ReversibleComesBack(mapping, text, ps, edits, i);
    }
    IdentityEdits(text, back, 0);
  }

  // ----- Bracketed tokens: only the gaps matter -----

  /** No token of the mapping, in any case, occurs in the text between the edits. */
  ghost predicate NoTokenOutside(text: string, edits: seq<Edit>, cursor: nat, mapping: map<string, string>)
    requires Fits(edits, cursor, |text|)
    decreases |edits|
  {
    if edits == [] then NoTokenIn(text[cursor..], mapping)
    else NoTokenIn(text[cursor..edits[0].start], mapping) && NoTokenOutside(text, edits[1..], edits[0].end, mapping)
  }

  ghost predicate NoTokenIn(gap: string, mapping: map<string, string>) {
    forall i, t :: 0 <= i < |gap| && t in mapping ==> !MatchesFront(gap[i..], FoldAll(t))
  }

  ghost predicate BracketedMapping(mapping: map<string, string>) {
    forall t :: t in mapping ==> Bracketed(FoldAll(t))
  }

  /** Bracketed tokens are never the beginning of one another. */
  lemma BracketedArePrefixFree(mapping: map<string, string>)
    requires BracketedMapping(mapping)
    ensures PrefixFree(mapping)
  {
    forall t, u | t in mapping && u in mapping && FoldAll(t) <= FoldAll(u) ensures FoldAll(t) == FoldAll(u) {
      var a, b := FoldAll(t), FoldAll(u);
      assert Bracketed(a) && Bracketed(b) && b[|a| - 1] == a[|a| - 1];
    }
  }

  /** A bracketed token cannot begin in a gap and run on into the token behind it. */
  lemma GapStandsAlone(mapping: map<string, string>, gap: string, tail: string)
    requires BracketedMapping(mapping) && (tail == "" || tail[0] == '[')
    ensures NoTokenWithin(gap, tail, mapping) <==> NoTokenIn(gap, mapping)
  {
    forall i, t | 0 <= i < |gap| && t in mapping
      ensures MatchesFront((gap + tail)[i..], FoldAll(t)) <==> MatchesFront(gap[i..], FoldAll(t))
    {
      assert (gap + tail)[i..] == gap[i..] + tail;
      MatchStaysInGap(gap[i..], tail, FoldAll(t));
    }
  }

  /** No other bracketed token begins inside a token. */
  lemma BracketedIsUndisturbed(mapping: map<string, string>, token: string, rest: string)
    requires BracketedMapping(mapping) && Bracketed(token) && (token in mapping || Unknown(mapping, token))
    ensures TokenUndisturbed(token, rest, mapping)
  {
    if token in mapping {
      BracketedArePrefixFree(mapping);
      PrefixFreeIsLongest(token, rest, mapping);
    } else {
      forall i, t | 0 <= i < |token| && t in mapping ensures !MatchesFront((token + rest)[i..], FoldAll(t)) {
        NoneInside(mapping, token, rest, i, t);
      }
    }
  }

  lemma NoneInside(mapping: map<string, string>, token: string, rest: string, i: nat, t: string)
    requires BracketedMapping(mapping) && Bracketed(token) && Unknown(mapping, token)
    requires i < |token| && t in mapping
    ensures !MatchesFront((token + rest)[i..], FoldAll(t))
  {
    if i == 0 {
      assert (token + rest)[0..] == token + rest;
      MatchIsTheToken(token, rest, FoldAll(t));
    } else {
      assert (token + rest)[i..][0] == token[i];
      NoMatchWithoutBracket((token + rest)[i..], FoldAll(t));
    }
  }

  /** For bracketed tokens, the tokenized text is undisturbed exactly when no gap contains a mapped token. */
  lemma {:induction false} UndisturbedIff(
    text: string, ps: seq<Piece>, edits: seq<Edit>, cursor: nat, mapping: map<string, string>)
    requires InText(text, ps) && |edits| == |ps| && Fits(edits, cursor, |text|) && AllPlaced(mapping, text, ps, edits)
    requires BracketedMapping(mapping) && BracketedEdits(edits)
    ensures Undisturbed(text, edits, cursor, mapping) <==> NoTokenOutside(text, edits, cursor, mapping)
    decreases |edits|
  {
    if edits == [] {
      GapStandsAlone(mapping, text[cursor..], "");
    } else {
      var e, rest := edits[0], Spliced(text, edits[1..], edits[0].end);
      PlacedTail(mapping, text, ps, edits);
      assert Bracketed(e.replacement) && forall i :: 0 <= i < |edits[1..]| ==> edits[1..][i] == edits[i + 1];
      GapStandsAlone(mapping, text[cursor..e.start], e.replacement + rest);
      BracketedIsUndisturbed(mapping, e.replacement, rest);
      UndisturbedIff(text, ps[1..], edits[1..], e.end, mapping);
    }
  }

  // ----- Any text, for bracketed tokens -----

  /** The gaps restored on their own, with every token replaced by what it stands for. */
  function Reassembled(
    text: string, edits: seq<Edit>, cursor: nat, ordered: seq<string>, lookup: map<string, string>): string
    requires Fits(edits, cursor, |text|) && forall key :: key in ordered ==> key != "" && key in lookup
    decreases |edits|
  {
    if edits == [] then Restored(text[cursor..], ordered, lookup)
    else
      var e := edits[0];
      Restored(text[cursor..e.start], ordered, lookup) + ValueOf(e.replacement, lookup)
      + Reassembled(text, edits[1..], e.end, ordered, lookup)
  }

  ghost predicate BracketedEdits(edits: seq<Edit>) {
    forall i :: 0 <= i < |edits| ==> Bracketed(edits[i].replacement)
  }

  /** On every text: tokens are restored exactly, and gaps are restored as if each stood alone. */
  lemma {:induction false} RestoreReassembles(
    text: string, edits: seq<Edit>, cursor: nat, ordered: seq<string>, lookup: map<string, string>)
    requires Fits(edits, cursor, |text|) && BracketedEdits(edits)
    requires UsablePattern(ordered, lookup) && AllBracketed(ordered) && forall k :: k in lookup ==> k in ordered
    ensures Restored(Spliced(text, edits, cursor), ordered, lookup) == Reassembled(text, edits, cursor, ordered, lookup)
    decreases |edits|
  {
    if edits == [] {
    } else {
      var e := edits[0];
      var gap, rest := text[cursor..e.start], Spliced(text, edits[1..], e.end);
      assert forall i :: 0 <= i < |edits[1..]| ==> edits[1..][i] == edits[i + 1];
      RestoreReassembles(text, edits[1..], e.end, ordered, lookup);
      assert Spliced(text, edits, cursor) == gap + (e.replacement + rest);
      RestoreGap(gap, e.replacement + rest, ordered, lookup);
      RestoreToken(e.replacement, rest, ordered, lookup);
      Associate(
        Restored(gap, ordered, lookup), ValueOf(e.replacement, lookup), Restored(rest, ordered, lookup));
    }
  }
}
