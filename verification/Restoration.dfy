/**
 Restoring tokens in a text (tokenization/restorer.py): one pass of case-insensitive replacement, the longest
 token first at each position.
 */
module Restoration {
  import opened Options
  import opened Sorting
  import opened Text

  /** `key`, a folded token, matches at the front of `text`. */
  predicate MatchesFront(text: string, key: string) {
    |key| <= |text| && FoldAll(text[..|key|]) == key
  }

  /** The first alternative of the pattern that matches at the front. */
  function FirstMatch(text: string, ordered: seq<string>): (k: Option<string>)
    ensures k.Some? ==> k.value in ordered && MatchesFront(text, k.value)
    ensures k.None? ==> forall key :: key in ordered ==> !MatchesFront(text, key)
  {
    if ordered == [] then None
    else if MatchesFront(text, ordered[0]) then Some(ordered[0])
    else FirstMatch(text, ordered[1..])
  }

  /** Leftmost substitution: replaced text is never scanned again. */
  function Restored(text: string, ordered: seq<string>, lookup: map<string, string>): string
    requires forall key :: key in ordered ==> key != "" && key in lookup
    decreases |text|
  {
    if text == "" then ""
    else
      var k := FirstMatch(text, ordered);
      if k.Some? then lookup[k.value] + Restored(text[|k.value|..], ordered, lookup)
      else [text[0]] + Restored(text[1..], ordered, lookup)
  }

  /** Folded tokens with their values; when two tokens fold alike, one of them is taken, whatever the order. */
  ghost predicate IsLookup(lookup: map<string, string>, mapping: map<string, string>) {
    && (forall t :: t in mapping && t != "" ==> FoldAll(t) in lookup)
    && (forall k :: k in lookup ==> exists t :: t in mapping && t != "" && FoldAll(t) == k && lookup[k] == mapping[t])
  }

  predicate LongestFirst(a: string, b: string) {
    |a| >= |b|
  }

  ghost predicate IsPattern(ordered: seq<string>, lookup: map<string, string>) {
    (forall k :: k in ordered <==> k in lookup) && SortedBy(ordered, LongestFirst)
  }

  /** What `restore_text` may return; without fold-equal tokens there is only one such text. */
  ghost predicate IsRestoration(text: string, mapping: map<string, string>, result: string) {
    exists ordered, lookup ::
      IsLookup(lookup, mapping) && IsPattern(ordered, lookup) && UsablePattern(ordered, lookup)
      && result == Restored(text, ordered, lookup)
  }

  ghost predicate UsablePattern(ordered: seq<string>, lookup: map<string, string>) {
    forall key :: key in ordered ==> key != "" && key in lookup
  }

  // ----- The program's dictionary: when tokens fold alike, the last one wins -----

  /** The keys of a dictionary in insertion order. */
  ghost predicate IsOrderOf(order: seq<string>, mapping: map<string, string>) {
    forall t :: t in order <==> t in mapping
  }

  function LookupOf(order: seq<string>, mapping: map<string, string>): map<string, string>
    requires forall t :: t in order ==> t in mapping
  {
    if order == [] then map[]
    else
      var t, earlier := order[|order| - 1], LookupOf(order[..|order| - 1], mapping);
      if t == "" then earlier else earlier[FoldAll(t) := mapping[t]]
  }

  /** A folded token is looked up as the last token of the dictionary that folds to it. */
  lemma {:induction false} LookupOfIsLast(order: seq<string>, mapping: map<string, string>, k: string)
    requires forall t :: t in order ==> t in mapping
    ensures k in LookupOf(order, mapping) <==> exists i :: 0 <= i < |order| && LastFolded(order, k, i)
    ensures forall i :: 0 <= i < |order| && LastFolded(order, k, i) ==>
              k in LookupOf(order, mapping) && LookupOf(order, mapping)[k] == mapping[order[i]]
  {
    if order == [] {
    } else if Folds(order[|order| - 1], k) {
      assert LastFolded(order, k, |order| - 1);
    } else {
      var front := order[..|order| - 1];
      LookupOfIsLast(front, mapping, k);
      assert k in LookupOf(order, mapping) <==> k in LookupOf(front, mapping);
      forall i | 0 <= i < |front| ensures LastFolded(order, k, i) <==> LastFolded(front, k, i) {
        LastFoldedStep(order, k, i);
      }
    }
  }

  lemma LastFoldedStep(order: seq<string>, k: string, i: nat)
    requires i < |order| - 1
    ensures LastFolded(order, k, i) <==>
            LastFolded(order[..|order| - 1], k, i) && !Folds(order[|order| - 1], k)
  {
  }

  predicate Folds(t: string, k: string) {
    t != "" && FoldAll(t) == k
  }

  ghost predicate LastFolded(order: seq<string>, k: string, i: nat)
    requires i < |order|
  {
    Folds(order[i], k) && forall j :: i < j < |order| ==> !Folds(order[j], k)
  }

  lemma LookupOfIsLookup(order: seq<string>, mapping: map<string, string>)
    requires IsOrderOf(order, mapping)
    ensures IsLookup(LookupOf(order, mapping), mapping)
  {
    var lookup := LookupOf(order, mapping);
    forall k | k in lookup ensures exists t :: t in mapping && t != "" && FoldAll(t) == k && lookup[k] == mapping[t] {
      LookupOfIsLast(order, mapping, k);
      var i :| 0 <= i < |order| && LastFolded(order, k, i);
      assert order[i] in mapping;
    }
    forall t | t in mapping && t != "" ensures FoldAll(t) in lookup {
      EveryKeyIsFound(order, mapping, t);
    }
  }

  lemma {:induction false} EveryKeyIsFound(order: seq<string>, mapping: map<string, string>, t: string)
    requires (forall u :: u in order ==> u in mapping) && t in order && t != ""
    ensures FoldAll(t) in LookupOf(order, mapping)
  {
    var front, n := order[..|order| - 1], |order| - 1;
    assert order == front + [order[n]];
    if t != order[n] {
      EveryKeyIsFound(front, mapping, t);
    }
  }

  /** What `restore_text` returns for a dictionary with this insertion order. */
  ghost predicate IsRestorationIn(text: string, mapping: map<string, string>, order: seq<string>, result: string)
    requires IsOrderOf(order, mapping)
  {
    exists ordered ::
      IsPattern(ordered, LookupOf(order, mapping)) && UsablePattern(ordered, LookupOf(order, mapping))
      && result == Restored(text, ordered, LookupOf(order, mapping))
  }

  lemma InOrderIsARestoration(text: string, mapping: map<string, string>, order: seq<string>, result: string)
    requires IsOrderOf(order, mapping) && IsRestorationIn(text, mapping, order, result)
    ensures IsRestoration(text, mapping, result)
  {
    LookupOfIsLookup(order, mapping);
  }

  method BuildLookup(mapping: map<string, string>, order: seq<string>)
    returns (lookup: map<string, string>, keys: seq<string>)
    requires IsOrderOf(order, mapping)
    ensures lookup == LookupOf(order, mapping)
    ensures forall k :: k in keys <==> k in lookup
  {
    lookup, keys := map[], [];
    for n := 0 to |order|
      invariant lookup == LookupOf(order[..n], mapping)
      invariant forall k :: k in keys <==> k in lookup
    {
      var t := order[n];
      assert order[..n + 1][..n] == order[..n];
      if t != "" {
        if FoldAll(t) !in lookup {
          keys := keys + [FoldAll(t)];
        }
        lookup := lookup[FoldAll(t) := mapping[t]];
      }
    }
    assert order[..|order|] == order;
  }

  method RestoreText(text: string, mapping: map<string, string>, order: seq<string>) returns (result: string)
    requires IsOrderOf(order, mapping)
    ensures IsRestorationIn(text, mapping, order, result)
    ensures IsRestoration(text, mapping, result)
  {
    var lookup, keys := BuildLookup(mapping, order);
    var ordered := Sort(keys, LongestFirst);
    SortKeepsMembers(keys, LongestFirst);
    SortSorts(keys, LongestFirst);
    LookupOfIsLookup(order, mapping);
    KeysAreNonEmpty(lookup, mapping);
    assert IsPattern(ordered, lookup) && UsablePattern(ordered, lookup);
    result := text;
    if mapping == map[] || text == "" || lookup == map[] {
      NothingToRestore(text, ordered, lookup);
    } else {
      result := Restored(text, ordered, lookup);
    }
    assert IsRestorationIn(text, mapping, order, result);
    InOrderIsARestoration(text, mapping, order, result);
  }

  lemma KeysAreNonEmpty(lookup: map<string, string>, mapping: map<string, string>)
    requires IsLookup(lookup, mapping)
    ensures forall k :: k in lookup ==> k != ""
  {
  }

  lemma {:induction false} NothingToRestore(text: string, ordered: seq<string>, lookup: map<string, string>)
    requires UsablePattern(ordered, lookup)
    requires text == "" || forall k :: k !in ordered
    ensures Restored(text, ordered, lookup) == text
    decreases |text|
  {
    if text == "" {
    } else {
      NothingToRestore(text[1..], ordered, lookup);
    }
  }

  // ----- Bracketed tokens -----

  /** `[` at the front, `]` at the end, and no other bracket. */
  predicate Bracketed(s: string) {
    && |s| >= 2 && s[0] == '[' && s[|s| - 1] == ']'
    && forall i :: 0 < i < |s| - 1 ==> s[i] != '[' && s[i] != ']'
  }

  ghost predicate AllBracketed(ordered: seq<string>) {
    forall k :: k in ordered ==> Bracketed(k)
  }

  lemma MatchedCharacters(text: string, key: string)
    ensures MatchesFront(text, key) <==>
            |key| <= |text| && forall i :: 0 <= i < |key| ==> key[i] == Fold(text[i])
  {
  }

  /** A bracketed key that matches where a bracketed token stands covers exactly that token. */
  lemma MatchIsTheToken(token: string, rest: string, key: string)
    requires Bracketed(token) && Bracketed(key)
    ensures MatchesFront(token + rest, key) <==> key == FoldAll(token)
  {
    MatchedCharacters(token + rest, key);
    assert forall i :: 0 <= i < |token| ==> (token + rest)[i] == token[i];
  }

  /** A key that matches before a `[` ends before it. */
  lemma MatchStaysInGap(gap: string, rest: string, key: string)
    requires Bracketed(key) && gap != "" && (rest == "" || rest[0] == '[')
    ensures MatchesFront(gap + rest, key) <==> MatchesFront(gap, key)
  {
    MatchedCharacters(gap + rest, key);
    MatchedCharacters(gap, key);
    assert forall i :: 0 <= i < |gap| ==> (gap + rest)[i] == gap[i];
    assert rest != "" ==> (gap + rest)[|gap|] == '[';
  }

  lemma NoMatchWithoutBracket(text: string, key: string)
    requires Bracketed(key) && text != "" && text[0] != '['
    ensures !MatchesFront(text, key)
  {
    MatchedCharacters(text, key);
  }

  lemma {:induction false} FirstMatchAgrees(a: string, b: string, ordered: seq<string>)
    requires forall k :: k in ordered ==> (MatchesFront(a, k) <==> MatchesFront(b, k))
    ensures FirstMatch(a, ordered) == FirstMatch(b, ordered)
  {
    if ordered == [] {
    } else {
      FirstMatchAgrees(a, b, ordered[1..]);
    }
  }

  /** Text before a token is restored on its own. */
  lemma {:induction false} RestoreGap(gap: string, rest: string, ordered: seq<string>, lookup: map<string, string>)
    requires UsablePattern(ordered, lookup) && AllBracketed(ordered)
    requires rest == "" || rest[0] == '['
    ensures Restored(gap + rest, ordered, lookup) == Restored(gap, ordered, lookup) + Restored(rest, ordered, lookup)
    decreases |gap|
  {
    if gap == "" {
      assert gap + rest == rest;
    } else {
      GapMatch(gap, rest, ordered);
      var k := FirstMatch(gap, ordered);
      if k.Some? {
        var n := |k.value|;
        assert (gap + rest)[n..] == gap[n..] + rest;
        RestoreGap(gap[n..], rest, ordered, lookup);
        Associate(lookup[k.value], Restored(gap[n..], ordered, lookup), Restored(rest, ordered, lookup));
      } else {
        assert (gap + rest)[1..] == gap[1..] + rest;
        RestoreGap(gap[1..], rest, ordered, lookup);
        Associate([gap[0]], Restored(gap[1..], ordered, lookup), Restored(rest, ordered, lookup));
      }
    }
  }

  lemma GapMatch(gap: string, rest: string, ordered: seq<string>)
    requires AllBracketed(ordered) && gap != "" && (rest == "" || rest[0] == '[')
    ensures FirstMatch(gap + rest, ordered) == FirstMatch(gap, ordered)
  {
    forall k | k in ordered ensures MatchesFront(gap + rest, k) <==> MatchesFront(gap, k) {
      MatchStaysInGap(gap, rest, k);
    }
    FirstMatchAgrees(gap + rest, gap, ordered);
  }

  lemma Associate(a: string, b: string, c: string)
    ensures a + (b + c) == (a + b) + c
  {
  }

  /** What a token becomes. */
  function ValueOf(token: string, lookup: map<string, string>): string {
    Get(lookup, FoldAll(token)).GetOr(token)
  }

  lemma RestoreToken(token: string, rest: string, ordered: seq<string>, lookup: map<string, string>)
    requires UsablePattern(ordered, lookup) && AllBracketed(ordered) && Bracketed(token)
    requires forall k :: k in lookup ==> k in ordered
    ensures Restored(token + rest, ordered, lookup) == ValueOf(token, lookup) + Restored(rest, ordered, lookup)
  {
    forall k | k in ordered ensures MatchesFront(token + rest, k) <==> k == FoldAll(token) {
      MatchIsTheToken(token, rest, k);
    }
    if FoldAll(token) in lookup {
      assert FirstMatch(token + rest, ordered) == Some(FoldAll(token));
      RestoreMatched(token, rest, ordered, lookup);
    } else {
      UnknownTokenStays(token, rest, ordered);
      RestoreUnmatched(token, rest, ordered, lookup);
    }
  }

  /** Nothing matches inside a bracketed token. */
  lemma UnknownTokenStays(token: string, rest: string, ordered: seq<string>)
    requires AllBracketed(ordered) && Bracketed(token)
    requires forall k :: k in ordered ==> !MatchesFront(token + rest, k)
    ensures NoMatchWithin(token, rest, ordered)
  {
    forall i, k | 0 <= i < |token| && k in ordered ensures !MatchesFront((token + rest)[i..], k) {
      if i == 0 {
        assert (token + rest)[0..] == token + rest;
      } else {
        assert (token + rest)[i..][0] == token[i];
        NoMatchWithoutBracket((token + rest)[i..], k);
      }
    }
  }

  /** No token of the pattern occurs anywhere in `gap`. */
  ghost predicate Clean(gap: string, ordered: seq<string>) {
    forall i, k :: 0 <= i < |gap| && k in ordered ==> !MatchesFront(gap[i..], k)
  }

  lemma {:induction false} CleanIsUntouched(gap: string, ordered: seq<string>, lookup: map<string, string>)
    requires UsablePattern(ordered, lookup) && Clean(gap, ordered)
    ensures Restored(gap, ordered, lookup) == gap
    decreases |gap|
  {
    if gap == "" {
    } else {
      assert gap[0..] == gap;
      assert forall i :: 0 <= i < |gap| - 1 ==> gap[1..][i..] == gap[i + 1..];
      CleanIsUntouched(gap[1..], ordered, lookup);
    }
  }

  /** No value that the pattern can insert is empty or begins like a token. */
  ghost predicate PlainOn(ordered: seq<string>, lookup: map<string, string>)
    requires UsablePattern(ordered, lookup)
  {
    forall k :: k in ordered ==> lookup[k] != "" && lookup[k][0] != '['
  }

  // ----- Text of any shape -----

  /** No key matches anywhere in `front`, even if the match were to run on into `tail`. */
  ghost predicate NoMatchWithin(front: string, tail: string, ordered: seq<string>) {
    forall i, k :: 0 <= i < |front| && k in ordered ==> !MatchesFront((front + tail)[i..], k)
  }

  lemma NoMatchTail(front: string, tail: string, ordered: seq<string>)
    requires front != ""
    ensures NoMatchWithin(front, tail, ordered)
       <==> (forall k :: k in ordered ==> !MatchesFront(front + tail, k)) && NoMatchWithin(front[1..], tail, ordered)
  {
    assert (front + tail)[0..] == front + tail;
    forall i | 0 <= i < |front| - 1 ensures (front[1..] + tail)[i..] == (front + tail)[i + 1..] {
    }
    if (forall k :: k in ordered ==> !MatchesFront(front + tail, k)) && NoMatchWithin(front[1..], tail, ordered) {
      forall i, k | 0 <= i < |front| && k in ordered ensures !MatchesFront((front + tail)[i..], k) {
        if i > 0 {
          assert (front[1..] + tail)[i - 1..] == (front + tail)[i..];
        }
      }
    }
  }

  lemma CopiesOne(front: string, tail: string, ordered: seq<string>, lookup: map<string, string>)
    requires UsablePattern(ordered, lookup) && front != "" && FirstMatch(front + tail, ordered).None?
    ensures Restored(front + tail, ordered, lookup) == [front[0]] + Restored(front[1..] + tail, ordered, lookup)
  {
    assert (front + tail)[1..] == front[1..] + tail;
  }

  /** Text in which nothing matches is copied, whatever follows it. */
  lemma {:induction false} RestoreUnmatched(front: string, tail: string, ordered: seq<string>, lookup: map<string, string>)
    requires UsablePattern(ordered, lookup) && NoMatchWithin(front, tail, ordered)
    ensures Restored(front + tail, ordered, lookup) == front + Restored(tail, ordered, lookup)
    decreases |front|
  {
    if front == "" {
      assert front + tail == tail;
    } else {
      NoMatchTail(front, tail, ordered);
      CopiesOne(front, tail, ordered, lookup);
      RestoreUnmatched(front[1..], tail, ordered, lookup);
      Associate([front[0]], front[1..], Restored(tail, ordered, lookup));
      assert front == [front[0]] + front[1..];
    }
  }

  /** The longest key that matches is the one taken. */
  lemma {:induction false} LongestIsFirst(text: string, ordered: seq<string>, key: string)
    requires SortedBy(ordered, LongestFirst) && key in ordered && MatchesFront(text, key)
    requires forall k :: k in ordered && MatchesFront(text, k) ==> |k| <= |key|
    ensures FirstMatch(text, ordered) == Some(key)
  {
    if MatchesFront(text, ordered[0]) {
      var i :| 0 <= i < |ordered| && ordered[i] == key;
      assert i == 0 || LongestFirst(ordered[0], ordered[i]);
      assert |ordered[0]| == |key|;
    } else {
      assert ordered[0] != key && key in ordered[1..];
      LongestIsFirst(text, ordered[1..], key);
    }
  }

  /** A match is replaced and what follows it is restored on its own. */
  lemma RestoreMatched(token: string, tail: string, ordered: seq<string>, lookup: map<string, string>)
    requires UsablePattern(ordered, lookup) && token != ""
    requires FirstMatch(token + tail, ordered) == Some(FoldAll(token))
    ensures Restored(token + tail, ordered, lookup) == lookup[FoldAll(token)] + Restored(tail, ordered, lookup)
  {
    assert (token + tail)[|token|..] == tail;
  }

  /** Every key opens like a token. */
  ghost predicate OpensAll(ordered: seq<string>) {
    forall k :: k in ordered ==> k != "" && k[0] == '['
  }

  lemma ReplacedCharacterShows(text: string, ordered: seq<string>, lookup: map<string, string>, k: string)
    requires UsablePattern(ordered, lookup) && OpensAll(ordered) && PlainOn(ordered, lookup)
    requires text != "" && FirstMatch(text, ordered) == Some(k)
    ensures Restored(text, ordered, lookup) != "" && Restored(text, ordered, lookup)[0] != text[0]
  {
    MatchedCharacters(text, k);
    assert Fold(text[0]) == '[' && text[0] == '[';
    var value, rest := lookup[k], Restored(text[|k|..], ordered, lookup);
    assert (value + rest)[0] == value[0];
  }

  /** Text in which something matches does not come back as it was, whatever follows on either side. */
  lemma {:induction false} MatchWithinDiffers(
    front: string, tail: string, tail': string, ordered: seq<string>, lookup: map<string, string>)
    requires UsablePattern(ordered, lookup) && OpensAll(ordered) && PlainOn(ordered, lookup)
    requires !NoMatchWithin(front, tail, ordered)
    ensures Restored(front + tail, ordered, lookup) != front + tail'
    decreases |front|
  {
    var k := FirstMatch(front + tail, ordered);
    if k.Some? {
      ReplacedCharacterShows(front + tail, ordered, lookup, k.value);
      assert (front + tail)[0] == front[0] == (front + tail')[0];
    } else {
      StaysMatched(front, tail, ordered);
      MatchWithinDiffers(front[1..], tail, tail', ordered, lookup);
      CopiedDiffers(front, tail, tail', ordered, lookup);
    }
  }

  lemma StaysMatched(front: string, tail: string, ordered: seq<string>)
    requires !NoMatchWithin(front, tail, ordered) && FirstMatch(front + tail, ordered).None?
    ensures front != "" && !NoMatchWithin(front[1..], tail, ordered)
  {
    NoMatchTail(front, tail, ordered);
  }

  lemma CopiedDiffers(front: string, tail: string, tail': string, ordered: seq<string>, lookup: map<string, string>)
    requires UsablePattern(ordered, lookup) && front != "" && FirstMatch(front + tail, ordered).None?
    requires Restored(front[1..] + tail, ordered, lookup) != front[1..] + tail'
    ensures Restored(front + tail, ordered, lookup) != front + tail'
  {
    CopiesOne(front, tail, ordered, lookup);
    FirstKept(front, tail', Restored(front[1..] + tail, ordered, lookup));
  }

  lemma FirstKept(front: string, tail: string, rest: string)
    requires front != "" && rest != front[1..] + tail
    ensures [front[0]] + rest != front + tail
  {
    assert ([front[0]] + rest)[1..] == rest && (front + tail)[1..] == front[1..] + tail;
  }
}
