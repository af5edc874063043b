/**
 Restoring tokens in a stream (streaming/restoration.py): every chunk is searched on its own for tokens with or without
 brackets, between characters that are neither letters, digits nor underscores.  `CutAgrees` says at which cuts the
 chunks together come out like the whole text.
 */
module StreamRestoration {
  import opened Intervals
  import opened Options
  import opened Restoration
  import opened Sorting
  import opened Text
  import Sessions
  import Tokenization

  predicate IsWord(c: char) {
    'A' <= c <= 'Z' || 'a' <= c <= 'z' || IsDigit(c) || c == '_'
  }

  lemma CapitalIs(c: char)
    ensures 'A' <= c <= 'Z' <==> c in "ABCDEFGHIJKLMNOPQRSTUVWXYZ"
  {
    var letters := "ABCDEFGHIJKLMNOPQRSTUVWXYZ";
    if 'A' <= c <= 'Z' {
      assert letters[c as int - 'A' as int] == c;
    }
  }

  lemma SmallIs(c: char)
    ensures 'a' <= c <= 'z' <==> c in "abcdefghijklmnopqrstuvwxyz"
  {
    var letters := "abcdefghijklmnopqrstuvwxyz";
    if 'a' <= c <= 'z' {
      assert letters[c as int - 'a' as int] == c;
    }
  }

  /** The class `[A-Za-z0-9_]`, character by character. */
  lemma WordIs(c: char)
    ensures IsWord(c) <==>
            || c in "ABCDEFGHIJKLMNOPQRSTUVWXYZ" || c in "abcdefghijklmnopqrstuvwxyz" || c in "0123456789" || c == '_'
  {
    CapitalIs(c);
    SmallIs(c);
    DigitIs(c);
  }

  predicate AllWord(s: string) {
    forall i :: 0 <= i < |s| ==> IsWord(s[i])
  }

  // ----- The session's lookup -----

  predicate IsBracket(c: char) {
    c == '[' || c == ']'
  }

  /** Python's `strip("[]")`. */
  function Stripped(s: string): string
    decreases |s|
  {
    if s != "" && IsBracket(s[0]) then Stripped(s[1..])
    else if s != "" && IsBracket(Last(s)) then Stripped(Front(s))
    else s
  }

  /** A later token with the same core wins; `order` lists the mapping's tokens in insertion order. */
  function CoresOf(order: seq<string>, mapping: map<string, string>): map<string, string>
    requires forall t :: t in order ==> t in mapping
  {
    if order == [] then map[]
    else CoresOf(Front(order), mapping)[FoldAll(Stripped(Last(order))) := mapping[Last(order)]]
  }

  // ----- The pattern -----

  /** The look-ahead. */
  predicate Ends(t: string, k: nat) {
    k >= |t| || !IsWord(t[k])
  }

  datatype Hit = Hit(end: nat, key: string)

  /** The first core that matches at `from`, with a closing bracket if the look-ahead allows it. */
  function CoreAt(t: string, from: nat, ordered: seq<string>): (h: Option<Hit>)
    requires from <= |t|
    ensures h.Some? ==> h.value.key in ordered && from + |h.value.key| <= h.value.end <= |t|
  {
    if ordered == [] then None
    else
      var k := from + |ordered[0]|;
      if !MatchesFront(t[from..], ordered[0]) then CoreAt(t, from, ordered[1..])
      else if k < |t| && t[k] == ']' && Ends(t, k + 1) then Some(Hit(k + 1, ordered[0]))
      else if Ends(t, k) then Some(Hit(k, ordered[0]))
      else CoreAt(t, from, ordered[1..])
  }

  /** The match at the front of `t`; `w` says whether the character before it stops the look-behind. */
  function MatchHere(w: bool, t: string, ordered: seq<string>): (h: Option<Hit>)
    ensures h.Some? ==> h.value.key in ordered && |h.value.key| <= h.value.end <= |t|
  {
    if w || t == "" then None
    else if t[0] == '[' && CoreAt(t, 1, ordered).Some? then CoreAt(t, 1, ordered)
    else CoreAt(t, 0, ordered)
  }

  /** Leftmost substitution of the pattern. */
  function Substituted(w: bool, t: string, ordered: seq<string>, lookup: map<string, string>): string
    requires forall k :: k in ordered ==> k != "" && k in lookup
    decreases |t|
  {
    if t == "" then ""
    else
      var h := MatchHere(w, t, ordered);
      if h.Some? then
        lookup[h.value.key] + Substituted(IsWord(t[h.value.end - 1]), t[h.value.end..], ordered, lookup)
      else [t[0]] + Substituted(IsWord(t[0]), t[1..], ordered, lookup)
  }

  class Stage {
    var lookup: map<string, string>
    var cores: seq<string>

    /** `cores` lists the keys of `lookup` in insertion order. */
    ghost predicate Valid()
      reads this
    {
      forall k :: k in cores <==> k in lookup
    }

    constructor ()
      ensures Valid() && lookup == map[]
    {
      lookup, cores := map[], [];
    }

    method StartSession(order: seq<string>, mapping: map<string, string>)
      requires forall t :: t in order <==> t in mapping
      modifies this
      ensures Valid() && lookup == CoresOf(order, mapping)
    {
      lookup, cores := map[], [];
      for k := 0 to |order|
        invariant Valid() && lookup == CoresOf(order[..k], mapping)
      {
        assert Front(order[..k + 1]) == order[..k];
        var core := FoldAll(Stripped(order[k]));
        if core !in lookup {
          cores := cores + [core];
        }
        lookup := lookup[core := mapping[order[k]]];
      }
      assert order[..|order|] == order;
    }

    /** `order` lists the cores of the pattern, the longest first. */
    method RestoreText(text: string) returns (result: string)
      requires Valid() && "" !in lookup
      ensures exists order ::
                IsPattern(order, lookup) && UsablePattern(order, lookup) && result == Substituted(false, text, order, lookup)
      ensures WordCores(lookup) ==> result == Rewritten(false, text, lookup)
    {
      var order := Sort(cores, LongestFirst);
      SortKeepsMembers(cores, LongestFirst);
      SortSorts(cores, LongestFirst);
      assert IsPattern(order, lookup) && UsablePattern(order, lookup);
      if WordCores(lookup) {
        SubstitutedIsRewritten(false, text, order, lookup);
      }
      if text == "" || lookup == map[] {
        assert lookup == map[] ==> order == [] by {
          if order != [] {
            assert order[0] in lookup;
          }
        }
        EmptyPatternChangesNothing(false, text, lookup);
        return text;
      }
      result := Substituted(false, text, order, lookup);
    }

    method CloseSession()
      modifies this
      ensures Valid() && lookup == map[]
    {
      lookup, cores := map[], [];
    }
  }

  // ----- What the pattern does: runs of letters, digits and underscores -----

  /** Cores as the tokenizer makes them when the entity types are words. */
  ghost predicate WordCores(lookup: map<string, string>) {
    forall k :: k in lookup ==> k != "" && AllWord(k)
  }

  /** Where the run that goes on at `k` ends. */
  function RunEnd(t: string, k: nat): (n: nat)
    requires k <= |t|
    ensures k <= n <= |t|
    decreases |t| - k
  {
    if k < |t| && IsWord(t[k]) then RunEnd(t, k + 1) else k
  }

  lemma {:induction false} RunEndIsMaximal(t: string, k: nat)
    requires k <= |t|
    ensures Ends(t, RunEnd(t, k)) && forall i :: k <= i < RunEnd(t, k) ==> IsWord(t[i])
    decreases |t| - k
  {
    if k < |t| && IsWord(t[k]) {
      RunEndIsMaximal(t, k + 1);
    }
  }

  /** Length of the run at the front. */
  function Run(t: string): (n: nat)
    ensures n <= |t|
  {
    RunEnd(t, 0)
  }

  lemma RunIsMaximal(t: string)
    ensures AllWord(t[..Run(t)]) && Ends(t, Run(t))
  {
    RunEndIsMaximal(t, 0);
  }

  /** A run has only one length. */
  lemma RunIs(t: string, n: nat)
    requires n <= |t| && AllWord(t[..n]) && Ends(t, n)
    ensures Run(t) == n
  {
    RunEndIsMaximal(t, 0);
    assert forall i :: 0 <= i < n ==> t[..n][i] == t[i];
  }

  function Lead(t: string): string {
    t[..Run(t)]
  }

  predicate IsCore(run: string, lookup: map<string, string>) {
    FoldAll(run) in lookup
  }

  /** Where a match that has reached `k` ends: a closing bracket belongs to it unless a run follows. */
  function Close(t: string, k: nat): nat {
    if k < |t| && t[k] == ']' && Ends(t, k + 1) then k + 1 else k
  }

  /** How far an opening bracket reaches. */
  function Opening(t: string): (n: nat)
    ensures n <= |t|
  {
    if t != "" && t[0] == '[' then 1 else 0
  }

  /** The run that a match at the front would take. */
  function Candidate(t: string): string {
    Lead(t[Opening(t)..])
  }

  /** The number of characters that a match at the front takes, 0 if there is none. */
  function Taken(w: bool, t: string, lookup: map<string, string>): (n: nat)
    ensures n <= |t|
  {
    if !w && t != "" && IsCore(Candidate(t), lookup) then Close(t, Opening(t) + |Candidate(t)|) else 0
  }

  /** What is consumed at the front of `t`: a match, or one character that no match takes. */
  function Step(w: bool, t: string, lookup: map<string, string>): (n: nat)
    requires t != ""
    ensures 0 < n <= |t|
  {
    if Taken(w, t, lookup) > 0 then Taken(w, t, lookup) else 1
  }

  /** What it comes out as. */
  function Head(w: bool, t: string, lookup: map<string, string>): string
    requires t != ""
  {
    if Taken(w, t, lookup) > 0 then lookup[FoldAll(Candidate(t))] else [t[0]]
  }

  /** Every run that is a core is replaced, together with the brackets that belong to it. */
  function Rewritten(w: bool, t: string, lookup: map<string, string>): string
    decreases |t|
  {
    if t == "" then ""
    else
      var n := Step(w, t, lookup);
      Head(w, t, lookup) + Rewritten(IsWord(t[n - 1]), t[n..], lookup)
  }

  lemma {:induction false} EmptyPatternChangesNothing(w: bool, t: string, lookup: map<string, string>)
    ensures Substituted(w, t, [], lookup) == t
    decreases |t|
  {
    if t != "" {
      EmptyPatternChangesNothing(IsWord(t[0]), t[1..], lookup);
      assert MatchHere(w, t, []) == None;
      assert [t[0]] + t[1..] == t;
    }
  }

  lemma FoldKeepsWord(s: string)
    ensures AllWord(FoldAll(s)) <==> AllWord(s)
  {
    var f := FoldAll(s);
    forall i | 0 <= i < |s| ensures IsWord(f[i]) <==> IsWord(s[i]) {
      assert f[i] == Fold(s[i]);
    }
  }

  /** A core matches with the look-ahead satisfied exactly if it is the whole run. */
  lemma CoreIsTheRun(t: string, from: nat, key: string)
    requires from <= |t| && AllWord(key)
    ensures MatchesFront(t[from..], key) && Ends(t, from + |key|) <==> key == FoldAll(Lead(t[from..]))
  {
    var rest := t[from..];
    if MatchesFront(rest, key) && Ends(t, from + |key|) {
      FoldKeepsWord(rest[..|key|]);
      assert Ends(rest, |key|) by {
        if |key| < |rest| {
          assert rest[|key|] == t[from + |key|];
        }
      }
      RunIs(rest, |key|);
    }
    if key == FoldAll(Lead(rest)) {
      RunIsMaximal(rest);
      FoldKeepsWord(Lead(rest));
      assert |key| == Run(rest) && Ends(rest, |key|);
      if |key| < |rest| {
        assert rest[|key|] == t[from + |key|];
      }
    }
  }

  lemma CoreAtStep(t: string, from: nat, ordered: seq<string>)
    requires from <= |t| && ordered != [] && AllWord(ordered[0])
    ensures var run := Lead(t[from..]);
            CoreAt(t, from, ordered)
            == if ordered[0] == FoldAll(run) then Some(Hit(Close(t, from + |run|), FoldAll(run)))
               else CoreAt(t, from, ordered[1..])
  {
    var key := ordered[0];
    CoreIsTheRun(t, from, key);
    if MatchesFront(t[from..], key) && from + |key| < |t| && t[from + |key|] == ']' {
      assert Ends(t, from + |key|);
    }
  }

  /** Whatever the order of the cores, the pattern finds the run or nothing. */
  lemma {:induction false} CoreAtIs(t: string, from: nat, ordered: seq<string>)
    requires from <= |t| && forall k :: k in ordered ==> AllWord(k)
    ensures var run := Lead(t[from..]);
            CoreAt(t, from, ordered) == if FoldAll(run) in ordered then Some(Hit(Close(t, from + |run|), FoldAll(run))) else None
  {
    if ordered == [] {
    } else {
      assert ordered[0] in ordered && forall k :: k in ordered[1..] ==> k in ordered;
      CoreAtIs(t, from, ordered[1..]);
      CoreAtStep(t, from, ordered);
      assert ordered == [ordered[0]] + ordered[1..];
    }
  }

  lemma MatchHereIs(w: bool, t: string, ordered: seq<string>, lookup: map<string, string>)
    requires WordCores(lookup) && (forall k :: k in ordered <==> k in lookup) && t != ""
    ensures var n := Taken(w, t, lookup);
            MatchHere(w, t, ordered)
            == if n > 0 then Some(Hit(n, FoldAll(Candidate(t)))) else None
  {
    CoreAtIs(t, 0, ordered);
    assert t[0..] == t;
    if t[0] == '[' {
      CoreAtIs(t, 1, ordered);
      assert Run(t) == 0;
      assert FoldAll(Lead(t)) == "";
    }
    NoEmptyCore(t, lookup);
  }

  lemma NoEmptyCore(run: string, lookup: map<string, string>)
    requires WordCores(lookup)
    ensures IsCore(run, lookup) ==> run != ""
    ensures IsCore(Lead(run), lookup) ==> Run(run) > 0
  {
  }

  /** For cores that are words, the order in which the pattern lists them makes no difference. */
  lemma {:induction false} SubstitutedIsRewritten(
    w: bool, t: string, ordered: seq<string>, lookup: map<string, string>)
    requires WordCores(lookup) && forall k :: k in ordered <==> k in lookup
    ensures Substituted(w, t, ordered, lookup) == Rewritten(w, t, lookup)
    decreases |t|
  {
    if t == "" {
    } else {
      MatchHereIs(w, t, ordered, lookup);
      var n := Step(w, t, lookup);
      SubstitutedIsRewritten(IsWord(t[n - 1]), t[n..], ordered, lookup);
    }
  }

  // ----- Cuts -----

  /** Where the run that reaches `k` starts. */
  function RunStart(t: string, k: nat): (n: nat)
    requires k <= |t|
    ensures n <= k
  {
    if k > 0 && IsWord(t[k - 1]) then RunStart(t, k - 1) else k
  }

  lemma {:induction false} RunStartIsMaximal(t: string, k: nat)
    requires k <= |t|
    ensures !Before(false, t, RunStart(t, k)) && forall i :: RunStart(t, k) <= i < k ==> IsWord(t[i])
  {
    if k > 0 && IsWord(t[k - 1]) {
      RunStartIsMaximal(t, k - 1);
    }
  }

  /** Length of the run at the back. */
  function Back(t: string): (n: nat)
    ensures n <= |t|
  {
    |t| - RunStart(t, |t|)
  }

  lemma BackIsMaximal(t: string)
    ensures AllWord(Trail(t)) && !Before(false, t, |t| - Back(t))
  {
    RunStartIsMaximal(t, |t|);
  }

  lemma BackIs(t: string, k: nat)
    requires k <= |t| && AllWord(t[k..]) && !Before(false, t, k)
    ensures Back(t) == |t| - k
  {
    RunStartIsMaximal(t, |t|);
    assert forall i :: k <= i < |t| ==> t[i] == t[k..][i - k];
  }

  function Trail(t: string): string {
    t[|t| - Back(t)..]
  }

  /** The run around the cut between `a` and `b` has characters on both sides. */
  predicate InsideRun(a: string, b: string) {
    Trail(a) != "" && Lead(b) != ""
  }

  /** The last character of `a` is the opening bracket of a token that follows. */
  predicate OpensBefore(a: string, b: string, lookup: map<string, string>) {
    a != "" && Last(a) == '[' && Trail(Front(a)) == "" && IsCore(Lead(b), lookup)
  }

  /** The first character of `b` is the closing bracket of a token that precedes. */
  predicate ClosesBehind(a: string, b: string, lookup: map<string, string>) {
    b != "" && b[0] == ']' && Lead(b[1..]) == "" && IsCore(Trail(a), lookup)
  }

  /** A bracket that a run before it keeps from opening a token, once that run is cut off. */
  predicate OpensTooEarly(a: string, b: string, lookup: map<string, string>) {
    b != "" && b[0] == '[' && IsCore(Lead(b[1..]), lookup) && Trail(a) != ""
  }

  /** A bracket that a run behind it keeps from closing a token, once that run is cut off. */
  predicate ClosesTooLate(a: string, b: string, lookup: map<string, string>) {
    a != "" && Last(a) == ']' && IsCore(Trail(Front(a)), lookup) && Lead(b) != ""
  }

  predicate TouchesABracket(a: string, b: string, lookup: map<string, string>) {
    || OpensBefore(a, b, lookup) || ClosesBehind(a, b, lookup)
    || OpensTooEarly(a, b, lookup) || ClosesTooLate(a, b, lookup)
  }

  /** What a run comes out as, with the brackets that would belong to a token in its place. */
  function Shown(open: string, run: string, close: string, lookup: map<string, string>): string {
    if IsCore(run, lookup) then lookup[FoldAll(run)] else open + run + close
  }

  /** The bracket before the run at the back of `a`. */
  function OpeningOf(a: string): string {
    OpeningBracket(a[..|a| - Back(a)])
  }

  function OpeningBracket(before: string): (open: string)
    ensures |open| <= |before|
  {
    if before != "" && Last(before) == '[' && Trail(Front(before)) == "" then "[" else ""
  }

  /** The bracket behind the run at the front of `b`. */
  function ClosingOf(b: string): string {
    var behind := b[Run(b)..];
    if behind != "" && behind[0] == ']' && Lead(behind[1..]) == "" then "]" else ""
  }

  /**
   The condition on a cut.  Inside a run, what the two halves come out as must add up to what the run comes out as;
   elsewhere, no bracket may be touched that would belong to a token.
   */
  predicate CutAgrees(a: string, b: string, lookup: map<string, string>) {
    if InsideRun(a, b) then
      var p, q := Trail(a), Lead(b);
      Shown(OpeningOf(a), p + q, ClosingOf(b), lookup)
      == Shown(OpeningOf(a), p, "", lookup) + Shown("", q, ClosingOf(b), lookup)
    else !TouchesABracket(a, b, lookup)
  }

  // ----- A text that goes on behind `a` -----

  /** Whether the character before position `i` of `a` is part of a run. */
  function Before(w: bool, a: string, i: nat): bool
    requires i <= |a|
  {
    if i == 0 then w else IsWord(a[i - 1])
  }

  /** What is consumed at the front of `a` does not depend on what follows. */
  predicate SameStart(w: bool, a: string, b: string, lookup: map<string, string>)
    requires a != ""
  {
    Step(w, a + b, lookup) == Step(w, a, lookup) && Head(w, a + b, lookup) == Head(w, a, lookup)
  }

  predicate SameAt(w: bool, a: string, b: string, i: nat, lookup: map<string, string>)
    requires i < |a|
  {
    SameStart(Before(w, a, i), a[i..], b, lookup)
  }

  /** No match in `a` is affected by what follows. */
  ghost predicate Unaffected(w: bool, a: string, b: string, lookup: map<string, string>) {
    forall i :: 0 <= i < |a| ==> SameAt(w, a, b, i, lookup)
  }

  lemma UnaffectedTail(w: bool, a: string, b: string, n: nat, lookup: map<string, string>)
    requires 0 < n <= |a| && Unaffected(w, a, b, lookup)
    ensures Unaffected(IsWord(a[n - 1]), a[n..], b, lookup)
  {
    var v, rest := IsWord(a[n - 1]), a[n..];
    forall i | 0 <= i < |rest| ensures SameAt(v, rest, b, i, lookup) {
      assert SameAt(w, a, b, n + i, lookup);
      assert rest[i..] == a[n + i..];
    }
  }

  lemma RewrittenStep(w: bool, t: string, lookup: map<string, string>)
    requires t != ""
    ensures var n := Step(w, t, lookup);
            Rewritten(w, t, lookup) == Head(w, t, lookup) + Rewritten(IsWord(t[n - 1]), t[n..], lookup)
  {
  }

  lemma SplitStep(w: bool, a: string, b: string, lookup: map<string, string>)
    requires a != "" && SameStart(w, a, b, lookup)
    ensures var n := Step(w, a, lookup);
            && Rewritten(w, a, lookup) == Head(w, a, lookup) + Rewritten(IsWord(a[n - 1]), a[n..], lookup)
            && Rewritten(w, a + b, lookup) == Head(w, a, lookup) + Rewritten(IsWord(a[n - 1]), a[n..] + b, lookup)
  {
    RewrittenStep(w, a, lookup);
    RewrittenStep(w, a + b, lookup);
    BehindTheStep(a, b, Step(w, a, lookup));
  }

  lemma BehindTheStep(a: string, b: string, n: nat)
    requires 0 < n <= |a|
    ensures (a + b)[n..] == a[n..] + b && (a + b)[n - 1] == a[n - 1]
  {
  }

  lemma SplitsBehindTheStep(w: bool, a: string, b: string, n: nat, behind: string, lookup: map<string, string>)
    requires a != "" && SameStart(w, a, b, lookup) && n == Step(w, a, lookup)
    requires Rewritten(IsWord(a[n - 1]), a[n..] + b, lookup) == Rewritten(IsWord(a[n - 1]), a[n..], lookup) + behind
    ensures Rewritten(w, a + b, lookup) == Rewritten(w, a, lookup) + behind
  {
    SplitStep(w, a, b, lookup);
    Associate(Head(w, a, lookup), Rewritten(IsWord(a[n - 1]), a[n..], lookup), behind);
  }

  lemma StartIsSame(w: bool, a: string, b: string, lookup: map<string, string>)
    requires a != "" && Unaffected(w, a, b, lookup)
    ensures SameStart(w, a, b, lookup)
  {
    assert SameAt(w, a, b, 0, lookup);
    assert a[0..] == a;
  }

  lemma NothingBefore(w: bool, b: string, lookup: map<string, string>)
    ensures Rewritten(w, "" + b, lookup) == Rewritten(w, "", lookup) + Rewritten(w, b, lookup)
  {
    assert "" + b == b && Rewritten(w, "", lookup) == "";
  }

  lemma {:induction false} UnaffectedSplits(
    w: bool, a: string, b: string, behind: string, lookup: map<string, string>)
    requires Unaffected(w, a, b, lookup) && behind == Rewritten(Before(w, a, |a|), b, lookup)
    ensures Rewritten(w, a + b, lookup) == Rewritten(w, a, lookup) + behind
    decreases |a|
  {
    if a == "" {
      NothingBefore(w, b, lookup);
    } else {
      StartIsSame(w, a, b, lookup);
      var n := Step(w, a, lookup);
      UnaffectedTail(w, a, b, n, lookup);
      BeforeTheEnd(w, a, n);
      UnaffectedSplits(IsWord(a[n - 1]), a[n..], b, behind, lookup);
      SplitsBehindTheStep(w, a, b, n, behind, lookup);
    }
  }

  lemma BeforeTheEnd(w: bool, a: string, n: nat)
    requires 0 < n <= |a|
    ensures Before(IsWord(a[n - 1]), a[n..], |a[n..]|) == Before(w, a, |a|)
  {
  }

  lemma Associate(a: string, b: string, c: string)
    ensures a + (b + c) == (a + b) + c
  {
  }

  // ----- Where nothing is affected -----

  lemma RunStops(t: string, b: string)
    requires Run(t) < |t| || Run(b) == 0
    ensures Run(t + b) == Run(t)
  {
    var n := Run(t);
    RunIsMaximal(t);
    RunIsMaximal(b);
    assert (t + b)[..n] == t[..n];
    assert n < |t + b| ==> (t + b)[n] == if n < |t| then t[n] else b[0];
    assert b != "" && Run(b) == 0 ==> !IsWord(b[0]);
    RunIs(t + b, n);
  }

  lemma SameCandidate(x: string, b: string)
    requires x != "" && (Run(x[Opening(x)..]) < |x| - Opening(x) || Run(b) == 0)
    ensures Candidate(x + b) == Candidate(x) && |Candidate(x)| == Run(x[Opening(x)..])
  {
    assert (x + b)[Opening(x)..] == x[Opening(x)..] + b;
    RunStops(x[Opening(x)..], b);
  }

  /** The match ends in front of the last character of `x`, or behind it without a run that follows. */
  lemma SameStartInside(x: string, b: string, lookup: map<string, string>)
    requires x != "" && Opening(x) + |Candidate(x)| < |x|
    requires !(Opening(x) + |Candidate(x)| == |x| - 1 && Last(x) == ']' && IsCore(Candidate(x), lookup) && Run(b) > 0)
    ensures SameStart(false, x, b, lookup)
  {
    SameCandidate(x, b);
    var k := Opening(x) + |Candidate(x)|;
    assert (x + b)[k] == x[k];
    if k + 1 < |x| {
      assert (x + b)[k + 1] == x[k + 1];
    } else {
      assert Ends(x, k + 1) && (b != "" ==> (x + b)[k + 1] == b[0]);
    }
  }

  /** The run reaches the end of `x`. */
  lemma SameStartAtEnd(x: string, b: string, lookup: map<string, string>)
    requires x != "" && Opening(x) + |Candidate(x)| == |x| && Run(b) == 0
    requires !(IsCore(Candidate(x), lookup) && b != "" && b[0] == ']' && Run(b[1..]) == 0)
    ensures SameStart(false, x, b, lookup)
  {
    SameCandidate(x, b);
    if b != "" {
      assert (x + b)[|x|] == b[0];
      assert |b| > 1 ==> (x + b)[|x| + 1] == b[1] == b[1..][0];
    }
  }

  /** An opening bracket at the end of `x`. */
  lemma SameStartAtBracket(b: string, lookup: map<string, string>)
    requires WordCores(lookup) && !IsCore(Lead(b), lookup)
    ensures SameStart(false, "[", b, lookup)
  {
    assert ("[" + b)[1..] == b && "["[1..] == "";
    NoEmptyCore("", lookup);
  }

  /** A run of `a` that begins at `s` and ends at the end of `a` is the one at the back. */
  lemma RunAtTheBack(a: string, s: nat)
    requires s <= |a| && !Before(false, a, s) && Run(a[s..]) == |a| - s
    ensures Trail(a) == a[s..]
  {
    RunIsMaximal(a[s..]);
    assert a[s..][..|a| - s] == a[s..];
    BackIs(a, s);
  }

  lemma RunBeforeTheLast(a: string, s: nat)
    requires a != "" && s < |a| && !Before(false, a, s) && Run(a[s..]) == |a| - 1 - s
    ensures Trail(Front(a)) == Lead(a[s..])
  {
    RunIsMaximal(a[s..]);
    var front := Front(a);
    assert front[s..] == a[s..][..|a| - 1 - s];
    assert s > 0 ==> front[s - 1] == a[s - 1];
    BackIs(front, s);
  }

  lemma OneMatchIsUnaffected(a: string, b: string, i: nat, lookup: map<string, string>)
    requires WordCores(lookup) && i < |a| && !InsideRun(a, b)
    requires !OpensBefore(a, b, lookup) && !ClosesBehind(a, b, lookup) && !ClosesTooLate(a, b, lookup)
    ensures SameAt(false, a, b, i, lookup)
  {
    var x := a[i..];
    if !Before(false, a, i) {
      var s := i + Opening(x);
      assert x[Opening(x)..] == a[s..] && !Before(false, a, s);
      var r := Run(a[s..]);
      assert |Candidate(x)| == r && Candidate(x) == Lead(a[s..]);
      if s + r < |a| {
        if s + r == |a| - 1 {
          RunBeforeTheLast(a, s);
        }
        assert Last(x) == Last(a);
        SameStartInside(x, b, lookup);
      } else {
        LastMatchIsUnaffected(a, b, i, lookup);
      }
    }
  }

  lemma LastMatchIsUnaffected(a: string, b: string, i: nat, lookup: map<string, string>)
    requires WordCores(lookup) && i < |a| && !Before(false, a, i) && !InsideRun(a, b)
    requires var x := a[i..]; var s := i + Opening(x); !Before(false, a, s) && s + Run(a[s..]) == |a|
    requires !OpensBefore(a, b, lookup) && !ClosesBehind(a, b, lookup)
    ensures SameStart(false, a[i..], b, lookup)
  {
    var x := a[i..];
    var s := i + Opening(x);
    RunAtTheBack(a, s);
    assert x[Opening(x)..] == a[s..] && Lead(a[s..]) == a[s..];
    assert Candidate(x) == Trail(a);
    if s == |a| {
      assert x == "[" && Last(a) == '[';
      RunBeforeTheLast(a, i);
      SameStartAtBracket(b, lookup);
    } else {
      SameStartAtEnd(x, b, lookup);
    }
  }

  /** A cut beside which nothing is affected: the second half only has to know whether a run goes before it. */
  lemma CleanCutSplits(a: string, b: string, lookup: map<string, string>)
    requires WordCores(lookup) && !InsideRun(a, b)
    requires !OpensBefore(a, b, lookup) && !ClosesBehind(a, b, lookup) && !ClosesTooLate(a, b, lookup)
    ensures Rewritten(false, a + b, lookup)
         == Rewritten(false, a, lookup) + Rewritten(Before(false, a, |a|), b, lookup)
  {
    forall i | 0 <= i < |a| ensures SameAt(false, a, b, i, lookup) {
      OneMatchIsUnaffected(a, b, i, lookup);
    }
    UnaffectedSplits(false, a, b, Rewritten(Before(false, a, |a|), b, lookup), lookup);
  }

  // ----- What a run and the text before it come out as -----

  lemma {:induction false} PlainRun(run: string, rest: string, lookup: map<string, string>)
    requires AllWord(run)
    ensures Rewritten(true, run + rest, lookup) == run + Rewritten(true, rest, lookup)
    decreases |run|
  {
    if run == "" {
      assert run + rest == rest;
    } else {
      assert (run + rest)[1..] == run[1..] + rest;
      PlainRun(run[1..], rest, lookup);
      Associate([run[0]], run[1..], Rewritten(true, rest, lookup));
      assert [run[0]] + run[1..] == run;
    }
  }

  /** A character that is no bracket and no start of a core stays. */
  lemma PlainStep(w: bool, c: char, rest: string, lookup: map<string, string>)
    requires w || !IsCore(Candidate([c] + rest), lookup)
    ensures Rewritten(w, [c] + rest, lookup) == [c] + Rewritten(IsWord(c), rest, lookup)
  {
    assert ([c] + rest)[1..] == rest;
  }

  lemma RunInFront(run: string, rest: string)
    requires AllWord(run) && Run(rest) == 0
    ensures Run(run + rest) == |run| && Lead(run + rest) == run
  {
    RunIsMaximal(rest);
    assert (run + rest)[..|run|] == run;
    assert rest != "" ==> (run + rest)[|run|] == rest[0];
    RunIs(run + rest, |run|);
  }

  /** At most one bracket. */
  predicate Optional(s: string, bracket: char) {
    s == "" || s == [bracket]
  }

  lemma UnmatchedRun(run: string, rest: string, lookup: map<string, string>)
    requires run != "" && AllWord(run) && Run(rest) == 0 && !IsCore(run, lookup)
    ensures Rewritten(false, run + rest, lookup) == run + Rewritten(true, rest, lookup)
  {
    RunInFront(run, rest);
    assert (run + rest)[0..] == run + rest;
    assert run + rest == [run[0]] + (run[1..] + rest);
    PlainStep(false, run[0], run[1..] + rest, lookup);
    PlainRun(run[1..], rest, lookup);
    Associate([run[0]], run[1..], Rewritten(true, rest, lookup));
    assert [run[0]] + run[1..] == run;
  }

  lemma CandidateBehind(open: string, run: string, rest: string)
    requires Optional(open, '[') && run != "" && AllWord(run) && Run(rest) == 0
    ensures Opening(open + (run + rest)) == |open| && Candidate(open + (run + rest)) == run
  {
    RunInFront(run, rest);
    var t := open + (run + rest);
    assert t[|open|..] == run + rest;
  }

  /** The bracket that belongs to a run in front of `close + rest` is `close`. */
  predicate ClosesWith(close: string, rest: string) {
    && Optional(close, ']') && Run(rest) == 0
    && (close == "" ==> !(rest != "" && rest[0] == ']' && Run(rest[1..]) == 0))
  }

  lemma UnmatchedComesOut(open: string, run: string, tail: string, lookup: map<string, string>)
    requires Optional(open, '[') && run != "" && AllWord(run) && Run(tail) == 0 && !IsCore(run, lookup)
    ensures Rewritten(false, open + (run + tail), lookup) == open + (run + Rewritten(true, tail, lookup))
  {
    CandidateBehind(open, run, tail);
    UnmatchedRun(run, tail, lookup);
    if open != "" {
      PlainStep(false, '[', run + tail, lookup);
    } else {
      assert open + (run + tail) == run + tail;
    }
  }

  lemma ClosingIsNoRun(close: string, rest: string)
    requires ClosesWith(close, rest)
    ensures Run(close + rest) == 0
  {
    if close == "" {
      assert close + rest == rest;
    }
  }

  lemma ClosingComesOut(close: string, rest: string, lookup: map<string, string>)
    requires ClosesWith(close, rest)
    ensures Rewritten(true, close + rest, lookup) == close + Rewritten(close == "", rest, lookup)
    ensures Run(close + rest) == 0
  {
    if close != "" {
      PlainStep(true, ']', rest, lookup);
    } else {
      assert close + rest == rest;
    }
  }

  /** A run with the brackets that belong to it, whether it is a core or not. */
  lemma RunComesOut(open: string, run: string, close: string, rest: string, lookup: map<string, string>)
    requires Optional(open, '[') && run != "" && AllWord(run) && ClosesWith(close, rest)
    ensures Rewritten(false, open + (run + (close + rest)), lookup)
         == Shown(open, run, close, lookup) + Rewritten(close == "", rest, lookup)
  {
    ClosingComesOut(close, rest, lookup);
    if IsCore(run, lookup) {
      MatchedRun(open, run, close, rest, lookup);
    } else {
      UnmatchedComesOut(open, run, close + rest, lookup);
      Reassociate(open, run, close, Rewritten(close == "", rest, lookup));
    }
  }

  lemma Reassociate(a: string, b: string, c: string, d: string)
    ensures a + (b + (c + d)) == a + b + c + d
  {
  }

  lemma MatchTakes(t: string, run: string, close: string, rest: string, lookup: map<string, string>)
    requires t != "" && Candidate(t) == run && IsCore(run, lookup) && ClosesWith(close, rest)
    requires Opening(t) + |run| <= |t| && t[Opening(t) + |run|..] == close + rest
    ensures Taken(false, t, lookup) == Opening(t) + |run| + |close|
  {
    CloseIs(t, Opening(t) + |run|, close, rest);
    TakenIs(t, run, lookup);
  }

  lemma TailOf(a: string, b: string, c: string)
    ensures (a + (b + c))[|a| + |b|..] == c
  {
  }

  lemma TakenIs(t: string, run: string, lookup: map<string, string>)
    requires t != "" && Candidate(t) == run && IsCore(run, lookup)
    ensures Taken(false, t, lookup) == Close(t, Opening(t) + |run|)
  {
  }

  lemma BehindTheMatch(open: string, run: string, close: string, rest: string, t: string)
    requires run != "" && AllWord(run) && Optional(close, ']') && t == open + (run + (close + rest))
    ensures var n := |open| + |run| + |close|; n <= |t| && t[n..] == rest && (IsWord(t[n - 1]) <==> close == "")
  {
    var n := |open| + |run| + |close|;
    assert IsWord(run[|run| - 1]);
    assert t[n - 1] == if close == "" then run[|run| - 1] else ']';
  }

  lemma MatchedRun(open: string, run: string, close: string, rest: string, lookup: map<string, string>)
    requires Optional(open, '[') && run != "" && AllWord(run) && IsCore(run, lookup) && ClosesWith(close, rest)
    ensures Rewritten(false, open + (run + (close + rest)), lookup)
         == lookup[FoldAll(run)] + Rewritten(close == "", rest, lookup)
  {
    var t := open + (run + (close + rest));
    ClosingIsNoRun(close, rest);
    CandidateBehind(open, run, close + rest);
    TailOf(open, run, close + rest);
    MatchTakes(t, run, close, rest, lookup);
    BehindTheMatch(open, run, close, rest, t);
    MatchComesOut(t, run, |open| + |run| + |close|, rest, lookup);
  }

  lemma MatchComesOut(t: string, run: string, n: nat, rest: string, lookup: map<string, string>)
    requires t != "" && Candidate(t) == run && IsCore(run, lookup)
    requires 0 < n <= |t| && Taken(false, t, lookup) == n && t[n..] == rest
    ensures Rewritten(false, t, lookup) == lookup[FoldAll(run)] + Rewritten(IsWord(t[n - 1]), rest, lookup)
  {
    RewrittenStep(false, t, lookup);
    assert Step(false, t, lookup) == n && Head(false, t, lookup) == lookup[FoldAll(run)];
  }

  lemma CloseIs(t: string, k: nat, close: string, rest: string)
    requires k <= |t| && t[k..] == close + rest && ClosesWith(close, rest)
    ensures Close(t, k) == k + |close|
  {
    if k < |t| {
      assert t[k] == t[k..][0];
      assert t[k + 1..] == t[k..][1..];
      RunIsMaximal(t[k + 1..]);
      assert k + 1 < |t| ==> t[k + 1] == t[k + 1..][0];
    }
    if close != "" {
      assert (close + rest)[1..] == rest;
    } else {
      assert close + rest == rest;
    }
  }

  /** What the text in front of a run comes out as: a closing bracket stays if the run follows at once. */
  function InFront(before: string, open: string, lookup: map<string, string>): string {
    if open == "" && before != "" && Last(before) == ']' && IsCore(Trail(Front(before)), lookup)
    then Rewritten(false, Front(before), lookup) + "]"
    else Rewritten(false, before, lookup)
  }

  lemma InFrontComesOut(before: string, open: string, tail: string, lookup: map<string, string>)
    requires WordCores(lookup) && tail != "" && !Before(false, before, |before|)
    requires if open == "" then Run(tail) > 0 && OpeningOf(before) == "" else tail[0] == '['
    ensures Rewritten(false, before + tail, lookup) == InFront(before, open, lookup) + Rewritten(false, tail, lookup)
  {
    NothingTouched(before, open, tail, lookup);
    if ClosesTooLate(before, tail, lookup) {
      ClosedInFront(before, tail, lookup);
    } else {
      CleanCutSplits(before, tail, lookup);
    }
  }

  lemma NothingTouched(before: string, open: string, tail: string, lookup: map<string, string>)
    requires WordCores(lookup) && tail != "" && !Before(false, before, |before|)
    requires if open == "" then Run(tail) > 0 && OpeningOf(before) == "" else tail[0] == '['
    ensures !InsideRun(before, tail) && !OpensBefore(before, tail, lookup) && !ClosesBehind(before, tail, lookup)
    ensures ClosesTooLate(before, tail, lookup) <==>
            open == "" && before != "" && Last(before) == ']' && IsCore(Trail(Front(before)), lookup)
  {
    NoEmptyCore("", lookup);
    assert Back(before) == 0 && before[..|before|] == before;
  }

  lemma ClosedInFront(before: string, tail: string, lookup: map<string, string>)
    requires WordCores(lookup) && ClosesTooLate(before, tail, lookup)
    ensures Rewritten(false, before + tail, lookup)
         == (Rewritten(false, Front(before), lookup) + "]") + Rewritten(false, tail, lookup)
  {
    BracketAtTheEnd(before, tail);
    BracketBeforeARun(Front(before), before + tail, tail, lookup);
  }

  lemma BracketAtTheEnd(before: string, tail: string)
    requires before != "" && Last(before) == ']'
    ensures before == Front(before) + "]" && before + tail == Front(before) + ("]" + tail)
  {
  }

  /** A closing bracket directly before a run belongs to no token. */
  lemma BracketBeforeARun(front: string, whole: string, tail: string, lookup: map<string, string>)
    requires WordCores(lookup) && Run(tail) > 0 && whole == front + ("]" + tail)
    ensures Rewritten(false, whole, lookup)
         == (Rewritten(false, front, lookup) + "]") + Rewritten(false, tail, lookup)
  {
    BracketIsClean(front, tail, lookup);
    CleanCutSplits(front, "]" + tail, lookup);
    BracketStays(Before(false, front, |front|), tail, lookup);
    Associate(Rewritten(false, front, lookup), "]", Rewritten(false, tail, lookup));
  }

  lemma BracketIsClean(front: string, tail: string, lookup: map<string, string>)
    requires WordCores(lookup) && Run(tail) > 0
    ensures var b := "]" + tail;
            !InsideRun(front, b) && !OpensBefore(front, b, lookup) && !ClosesBehind(front, b, lookup)
            && !ClosesTooLate(front, b, lookup)
  {
    assert ("]" + tail)[1..] == tail && Run("]" + tail) == 0;
    NoEmptyCore("", lookup);
  }

  lemma BracketStays(w: bool, tail: string, lookup: map<string, string>)
    requires WordCores(lookup)
    ensures Rewritten(w, "]" + tail, lookup) == "]" + Rewritten(false, tail, lookup)
  {
    var t := "]" + tail;
    assert t[0..] == t && Run(t) == 0;
    NoEmptyCore("", lookup);
    PlainStep(w, ']', tail, lookup);
  }

  // ----- A cut inside a run -----

  /** The text before a run at the end of `a`, and before its bracket. */
  function BeforeRun(a: string): string {
    WithoutOpening(a[..|a| - Back(a)])
  }

  function WithoutOpening(before: string): string {
    before[..|before| - |OpeningBracket(before)|]
  }

  /** The text behind a run at the front of `b`, and behind its bracket. */
  function BehindRun(b: string): string {
    b[|Lead(b)| + |ClosingOf(b)|..]
  }

  lemma RunAtTheEnd(a: string)
    requires Trail(a) != ""
    ensures a == BeforeRun(a) + (OpeningOf(a) + Trail(a)) && AllWord(Trail(a)) && Optional(OpeningOf(a), '[')
    ensures !Before(false, BeforeRun(a), |BeforeRun(a)|)
    ensures OpeningOf(a) == "" ==> OpeningOf(BeforeRun(a)) == ""
  {
    var before := a[..|a| - Back(a)];
    BackIsMaximal(a);
    SplitAt(a, |a| - Back(a));
    BracketInFront(before);
    Associate(WithoutOpening(before), OpeningBracket(before), Trail(a));
  }

  lemma SplitAt(a: string, k: nat)
    requires k <= |a| && (k > 0 ==> !IsWord(a[k - 1]))
    ensures a == a[..k] + a[k..] && !Before(false, a[..k], |a[..k]|)
  {
  }

  lemma BracketInFront(before: string)
    requires !Before(false, before, |before|)
    ensures before == WithoutOpening(before) + OpeningBracket(before) && Optional(OpeningBracket(before), '[')
    ensures !Before(false, WithoutOpening(before), |WithoutOpening(before)|)
    ensures OpeningBracket(before) == "" ==> OpeningOf(WithoutOpening(before)) == ""
  {
    if OpeningBracket(before) == "" {
      assert WithoutOpening(before) == before;
      assert Back(before) == 0 && before[..|before|] == before;
    } else {
      assert WithoutOpening(before) == Front(before) && before == Front(before) + "[";
      EndsInNoRun(Front(before));
    }
  }

  lemma EndsInNoRun(t: string)
    ensures Trail(t) == "" <==> !Before(false, t, |t|)
  {
  }

  lemma RunAtTheStart(b: string)
    ensures b == Lead(b) + (ClosingOf(b) + BehindRun(b)) && AllWord(Lead(b)) && ClosesWith(ClosingOf(b), BehindRun(b))
  {
    RunIsMaximal(b);
    var behind := b[Run(b)..];
    assert b == Lead(b) + behind;
    assert behind != "" ==> behind[0] == b[Run(b)];
    assert Run(behind) == 0;
    if ClosingOf(b) == "" {
      assert BehindRun(b) == behind;
    } else {
      assert BehindRun(b) == behind[1..] && behind == "]" + behind[1..];
    }
  }

  /** The text up to a run, the run and the text behind it come out one after the other. */
  lemma RunInText(
    before: string, open: string, run: string, close: string, behind: string, lookup: map<string, string>)
    requires WordCores(lookup) && Optional(open, '[') && run != "" && AllWord(run) && ClosesWith(close, behind)
    requires !Before(false, before, |before|) && (open == "" ==> OpeningOf(before) == "")
    ensures Rewritten(false, before + (open + (run + (close + behind))), lookup)
         == InFront(before, open, lookup) + (Shown(open, run, close, lookup) + Rewritten(close == "", behind, lookup))
  {
    var tail := open + (run + (close + behind));
    ClosingComesOut(close, behind, lookup);
    RunInFront(run, close + behind);
    assert open == "" ==> tail == run + (close + behind);
    InFrontComesOut(before, open, tail, lookup);
    RunComesOut(open, run, close, behind, lookup);
  }

  lemma Cancel(x: string, s: string, u: string, v: string, t: string)
    ensures x + (s + t) == (x + u) + (v + t) <==> s == u + v
  {
    if x + (s + t) == (x + u) + (v + t) {
      var whole := x + (s + t);
      assert whole == x + ((u + v) + t);
      assert whole[|x|..] == s + t && whole[|x|..] == (u + v) + t;
      assert |s| == |u + v|;
      assert (s + t)[..|s|] == s;
      assert ((u + v) + t)[..|u + v|] == u + v;
    }
    assert x + ((u + v) + t) == (x + u) + (v + t);
  }

  lemma FirstHalf(a: string, lookup: map<string, string>)
    requires WordCores(lookup) && Trail(a) != ""
    ensures Rewritten(false, a, lookup)
         == InFront(BeforeRun(a), OpeningOf(a), lookup) + Shown(OpeningOf(a), Trail(a), "", lookup)
  {
    RunAtTheEnd(a);
    LastRun(BeforeRun(a), OpeningOf(a), Trail(a), a, lookup);
  }

  lemma LastRun(before: string, open: string, run: string, whole: string, lookup: map<string, string>)
    requires WordCores(lookup) && Optional(open, '[') && run != "" && AllWord(run)
    requires !Before(false, before, |before|) && (open == "" ==> OpeningOf(before) == "")
    requires whole == before + (open + run)
    ensures Rewritten(false, whole, lookup) == InFront(before, open, lookup) + Shown(open, run, "", lookup)
  {
    RunInText(before, open, run, "", "", lookup);
    assert run + ("" + "") == run;
    assert Rewritten(true, "", lookup) == "";
    assert Shown(open, run, "", lookup) + "" == Shown(open, run, "", lookup);
  }

  lemma SecondHalf(b: string, lookup: map<string, string>)
    requires WordCores(lookup) && Lead(b) != ""
    ensures Rewritten(false, b, lookup)
         == Shown("", Lead(b), ClosingOf(b), lookup) + Rewritten(ClosingOf(b) == "", BehindRun(b), lookup)
  {
    RunAtTheStart(b);
    RunComesOut("", Lead(b), ClosingOf(b), BehindRun(b), lookup);
    assert "" + b == b;
  }

  lemma BothHalves(a: string, b: string, lookup: map<string, string>)
    requires WordCores(lookup) && InsideRun(a, b)
    ensures Rewritten(false, a + b, lookup)
         == InFront(BeforeRun(a), OpeningOf(a), lookup)
            + (Shown(OpeningOf(a), Trail(a) + Lead(b), ClosingOf(b), lookup)
               + Rewritten(ClosingOf(b) == "", BehindRun(b), lookup))
  {
    RunAtTheEnd(a);
    RunAtTheStart(b);
    JoinedRun(BeforeRun(a), OpeningOf(a), Trail(a), Lead(b), ClosingOf(b) + BehindRun(b));
    RunInText(BeforeRun(a), OpeningOf(a), Trail(a) + Lead(b), ClosingOf(b), BehindRun(b), lookup);
  }

  lemma JoinedRun(before: string, open: string, p: string, q: string, behind: string)
    ensures (before + (open + p)) + (q + behind) == before + (open + ((p + q) + behind))
  {
  }

  /** A cut inside a run: what the halves come out as must add up to what the run comes out as. */
  lemma CutInsideRunAgreesIff(a: string, b: string, lookup: map<string, string>)
    requires WordCores(lookup) && InsideRun(a, b)
    ensures Rewritten(false, a + b, lookup) == Rewritten(false, a, lookup) + Rewritten(false, b, lookup)
       <==> CutAgrees(a, b, lookup)
  {
    FirstHalf(a, lookup);
    SecondHalf(b, lookup);
    BothHalves(a, b, lookup);
    Cancel(InFront(BeforeRun(a), OpeningOf(a), lookup),
           Shown(OpeningOf(a), Trail(a) + Lead(b), ClosingOf(b), lookup),
           Shown(OpeningOf(a), Trail(a), "", lookup), Shown("", Lead(b), ClosingOf(b), lookup),
           Rewritten(ClosingOf(b) == "", BehindRun(b), lookup));
  }

  // ----- A cut between runs -----

  lemma OpeningIsDropped(b: string, lookup: map<string, string>)
    requires WordCores(lookup) && IsCore(Lead(b), lookup)
    ensures Rewritten(false, "[" + b, lookup) == Rewritten(false, b, lookup)
  {
    NoEmptyCore("", lookup);
    SecondHalf(b, lookup);
    RunAtTheStart(b);
    RunComesOut("[", Lead(b), ClosingOf(b), BehindRun(b), lookup);
  }

  lemma ClosingIsDropped(a: string, whole: string, lookup: map<string, string>)
    requires WordCores(lookup) && IsCore(Trail(a), lookup) && whole == a + "]"
    ensures Rewritten(false, whole, lookup) == Rewritten(false, a, lookup)
  {
    NoEmptyCore("", lookup);
    FirstHalf(a, lookup);
    RunAtTheEnd(a);
    ClosedRun(BeforeRun(a), OpeningOf(a), Trail(a), whole, lookup);
  }

  lemma ClosedRun(before: string, open: string, run: string, whole: string, lookup: map<string, string>)
    requires WordCores(lookup) && Optional(open, '[') && IsCore(run, lookup) && AllWord(run)
    requires !Before(false, before, |before|) && (open == "" ==> OpeningOf(before) == "")
    requires whole == (before + (open + run)) + "]"
    ensures Rewritten(false, whole, lookup) == InFront(before, open, lookup) + Shown(open, run, "", lookup)
  {
    NoEmptyCore(run, lookup);
    Regrouped(before, open, run);
    RunInText(before, open, run, "]", "", lookup);
    assert Rewritten(false, "", lookup) == "";
    assert Shown(open, run, "]", lookup) + "" == Shown(open, run, "", lookup);
  }

  lemma Regrouped(before: string, open: string, run: string)
    ensures (before + (open + run)) + "]" == before + (open + (run + ("]" + "")))
  {
  }

  lemma OneLonger(x: string, bracket: char, y: string)
    ensures x + y != (x + [bracket]) + y && x + y != x + ([bracket] + y)
    ensures (x + [bracket]) + y != x + y && x + ([bracket] + y) != x + y
  {
    assert |x + y| + 1 == |(x + [bracket]) + y|;
  }

  lemma OpensBeforeDisagrees(a: string, b: string, lookup: map<string, string>)
    requires WordCores(lookup) && OpensBefore(a, b, lookup)
    ensures Rewritten(false, a + b, lookup) != Rewritten(false, a, lookup) + Rewritten(false, b, lookup)
  {
    EndsInNoRun(Front(a));
    assert a == Front(a) + "[";
    OpeningIsCutOff(Front(a), a, a + b, b, lookup);
  }

  lemma OpeningIsCutOff(before: string, a: string, whole: string, b: string, lookup: map<string, string>)
    requires WordCores(lookup) && IsCore(Lead(b), lookup) && !Before(false, before, |before|)
    requires a == before + "[" && whole == a + b
    ensures Rewritten(false, whole, lookup) != Rewritten(false, a, lookup) + Rewritten(false, b, lookup)
  {
    LoneOpening(before, a, lookup);
    OpenedInFront(before, whole, b, lookup);
    OneLonger(Rewritten(false, before, lookup), '[', Rewritten(false, b, lookup));
  }

  lemma OpenedInFront(before: string, whole: string, b: string, lookup: map<string, string>)
    requires WordCores(lookup) && IsCore(Lead(b), lookup) && !Before(false, before, |before|)
    requires whole == (before + "[") + b
    ensures Rewritten(false, whole, lookup) == Rewritten(false, before, lookup) + Rewritten(false, b, lookup)
  {
    Associate(before, "[", b);
    InFrontComesOut(before, "[", "[" + b, lookup);
    OpeningIsDropped(b, lookup);
  }

  lemma LoneOpening(before: string, a: string, lookup: map<string, string>)
    requires WordCores(lookup) && !Before(false, before, |before|) && a == before + "["
    ensures Rewritten(false, a, lookup) == Rewritten(false, before, lookup) + "["
  {
    InFrontComesOut(before, "[", "[", lookup);
    NoEmptyCore("", lookup);
    assert "[" + "" == "[" && Candidate("[") == "";
    PlainStep(false, '[', "", lookup);
    assert Rewritten(false, "", lookup) == "";
  }

  lemma ClosesBehindDisagrees(a: string, b: string, lookup: map<string, string>)
    requires WordCores(lookup) && ClosesBehind(a, b, lookup)
    ensures Rewritten(false, a + b, lookup) != Rewritten(false, a, lookup) + Rewritten(false, b, lookup)
  {
    var rest := b[1..];
    assert b == "]" + rest;
    BracketStays(false, rest, lookup);
    ClosedBehind(a, a + b, rest, lookup);
    OneLonger(Rewritten(false, a, lookup), ']', Rewritten(false, rest, lookup));
  }

  lemma ClosedBehind(a: string, whole: string, rest: string, lookup: map<string, string>)
    requires WordCores(lookup) && IsCore(Trail(a), lookup) && Lead(rest) == "" && whole == (a + "]") + rest
    ensures Rewritten(false, whole, lookup) == Rewritten(false, a, lookup) + Rewritten(false, rest, lookup)
  {
    ClosingIsDropped(a, a + "]", lookup);
    BehindABracket(a + "]", rest, lookup);
    CleanCutSplits(a + "]", rest, lookup);
  }

  lemma BehindABracket(whole: string, rest: string, lookup: map<string, string>)
    requires WordCores(lookup) && whole != "" && Last(whole) == ']' && Lead(rest) == ""
    ensures !InsideRun(whole, rest) && !OpensBefore(whole, rest, lookup) && !ClosesBehind(whole, rest, lookup)
    ensures !ClosesTooLate(whole, rest, lookup) && !Before(false, whole, |whole|)
  {
    NoEmptyCore("", lookup);
  }

  lemma ClosesTooLateDisagrees(a: string, b: string, lookup: map<string, string>)
    requires WordCores(lookup) && ClosesTooLate(a, b, lookup)
    ensures Rewritten(false, a + b, lookup) != Rewritten(false, a, lookup) + Rewritten(false, b, lookup)
  {
    BracketAtTheEnd(a, b);
    ClosingIsCutOff(Front(a), a, a + b, b, lookup);
  }

  lemma ClosingIsCutOff(front: string, a: string, whole: string, b: string, lookup: map<string, string>)
    requires WordCores(lookup) && IsCore(Trail(front), lookup) && Run(b) > 0
    requires a == front + "]" && whole == front + ("]" + b)
    ensures Rewritten(false, whole, lookup) != Rewritten(false, a, lookup) + Rewritten(false, b, lookup)
  {
    BracketBeforeARun(front, whole, b, lookup);
    ClosingIsDropped(front, a, lookup);
    OneLonger(Rewritten(false, front, lookup), ']', Rewritten(false, b, lookup));
  }

  lemma OpensTooEarlyDisagrees(a: string, b: string, lookup: map<string, string>)
    requires WordCores(lookup) && OpensTooEarly(a, b, lookup)
    ensures Rewritten(false, a + b, lookup) != Rewritten(false, a, lookup) + Rewritten(false, b, lookup)
  {
    var rest := b[1..];
    assert b == "[" + rest;
    BeforeABracket(a, b, lookup);
    CleanCutSplits(a, b, lookup);
    PlainStep(true, '[', rest, lookup);
    OpeningIsDropped(rest, lookup);
    OneLonger(Rewritten(false, a, lookup), '[', Rewritten(false, rest, lookup));
  }

  lemma BeforeABracket(a: string, b: string, lookup: map<string, string>)
    requires WordCores(lookup) && Trail(a) != "" && b != "" && b[0] == '['
    ensures !InsideRun(a, b) && !OpensBefore(a, b, lookup) && !ClosesBehind(a, b, lookup)
    ensures !ClosesTooLate(a, b, lookup) && Before(false, a, |a|)
  {
    EndsInNoRun(a);
    NoEmptyCore("", lookup);
  }

  lemma NothingInFront(a: string, b: string, lookup: map<string, string>)
    requires WordCores(lookup) && !InsideRun(a, b) && !OpensTooEarly(a, b, lookup)
    ensures Rewritten(Before(false, a, |a|), b, lookup) == Rewritten(false, b, lookup)
  {
    EndsInNoRun(a);
    if Before(false, a, |a|) && b != "" {
      var rest := b[1..];
      assert b == [b[0]] + rest && b[0..] == b;
      NoEmptyCore("", lookup);
      PlainStep(true, b[0], rest, lookup);
      PlainStep(false, b[0], rest, lookup);
    }
  }

  /** A cut between runs: harmless exactly if it touches no bracket that would belong to a token. */
  lemma CutBetweenRunsAgreesIff(a: string, b: string, lookup: map<string, string>)
    requires WordCores(lookup) && !InsideRun(a, b)
    ensures Rewritten(false, a + b, lookup) == Rewritten(false, a, lookup) + Rewritten(false, b, lookup)
       <==> !TouchesABracket(a, b, lookup)
  {
    if OpensBefore(a, b, lookup) {
      OpensBeforeDisagrees(a, b, lookup);
    } else if ClosesBehind(a, b, lookup) {
      ClosesBehindDisagrees(a, b, lookup);
    } else if ClosesTooLate(a, b, lookup) {
      ClosesTooLateDisagrees(a, b, lookup);
    } else if OpensTooEarly(a, b, lookup) {
      OpensTooEarlyDisagrees(a, b, lookup);
    } else {
      CleanCutSplits(a, b, lookup);
      NothingInFront(a, b, lookup);
    }
  }

  /** Exactly at these cuts the two halves, restored one by one, are the restored text. */
  lemma CutAgreesIff(a: string, b: string, lookup: map<string, string>)
    requires WordCores(lookup)
    ensures Rewritten(false, a + b, lookup) == Rewritten(false, a, lookup) + Rewritten(false, b, lookup)
       <==> CutAgrees(a, b, lookup)
  {
    if InsideRun(a, b) {
      CutInsideRunAgreesIff(a, b, lookup);
    } else {
      CutBetweenRunsAgreesIff(a, b, lookup);
    }
  }

  // ----- Whole streams -----

  function Joined(chunks: seq<string>): string {
    if chunks == [] then "" else Joined(Front(chunks)) + Last(chunks)
  }

  /** What the client receives: every chunk is restored on its own. */
  function Emitted(chunks: seq<string>, lookup: map<string, string>): string {
    if chunks == [] then "" else Emitted(Front(chunks), lookup) + Rewritten(false, Last(chunks), lookup)
  }

  /** What was sent so far has always been what restoring the text so far gives. */
  ghost predicate AlwaysAgrees(chunks: seq<string>, lookup: map<string, string>) {
    forall k :: 0 <= k <= |chunks| ==> Emitted(chunks[..k], lookup) == Rewritten(false, Joined(chunks[..k]), lookup)
  }

  predicate CutAt(chunks: seq<string>, k: nat, lookup: map<string, string>)
    requires k < |chunks|
  {
    CutAgrees(Joined(chunks[..k]), chunks[k], lookup)
  }

  ghost predicate AllCutsAgree(chunks: seq<string>, lookup: map<string, string>) {
    forall k :: 0 <= k < |chunks| ==> CutAt(chunks, k, lookup)
  }

  lemma SameCut(chunks: seq<string>, k: nat, lookup: map<string, string>)
    requires k < |chunks| - 1
    ensures CutAt(Front(chunks), k, lookup) <==> CutAt(chunks, k, lookup)
  {
    assert Front(chunks)[..k] == chunks[..k];
  }

  lemma AgreesSoFar(chunks: seq<string>, lookup: map<string, string>)
    requires chunks != []
    ensures AlwaysAgrees(chunks, lookup) <==>
            AlwaysAgrees(Front(chunks), lookup) && Emitted(chunks, lookup) == Rewritten(false, Joined(chunks), lookup)
  {
    assert chunks[..|chunks|] == chunks;
    forall k | 0 <= k < |chunks| ensures Front(chunks)[..k] == chunks[..k] {
    }
  }

  lemma CutsSoFar(chunks: seq<string>, lookup: map<string, string>)
    requires chunks != []
    ensures AllCutsAgree(chunks, lookup) <==>
            AllCutsAgree(Front(chunks), lookup) && CutAt(chunks, |chunks| - 1, lookup)
  {
    forall k | 0 <= k < |chunks| - 1 ensures CutAt(Front(chunks), k, lookup) <==> CutAt(chunks, k, lookup) {
      SameCut(chunks, k, lookup);
    }
  }

  lemma AgreesAtTheEnd(chunks: seq<string>, lookup: map<string, string>)
    requires AlwaysAgrees(chunks, lookup)
    ensures Emitted(chunks, lookup) == Rewritten(false, Joined(chunks), lookup)
  {
    assert chunks[..|chunks|] == chunks;
  }

  /** One chunk more. */
  lemma LastCutAgreesIff(chunks: seq<string>, front: seq<string>, lookup: map<string, string>)
    requires WordCores(lookup) && chunks != [] && front == Front(chunks)
    requires Emitted(front, lookup) == Rewritten(false, Joined(front), lookup)
    ensures Emitted(chunks, lookup) == Rewritten(false, Joined(chunks), lookup) <==> CutAt(chunks, |chunks| - 1, lookup)
  {
    CutAgreesIff(Joined(front), Last(chunks), lookup);
  }

  /** Over a whole stream: the client always sees the restored text exactly if every cut is one of these. */
  lemma {:induction false} StreamAgreesIff(chunks: seq<string>, lookup: map<string, string>)
    requires WordCores(lookup)
    ensures AlwaysAgrees(chunks, lookup) <==> AllCutsAgree(chunks, lookup)
  {
    if chunks == [] {
      NothingSentAgrees(lookup);
    } else {
      var front := Front(chunks);
      StreamAgreesIff(front, lookup);
      AgreesSoFar(chunks, lookup);
      CutsSoFar(chunks, lookup);
      if AlwaysAgrees(front, lookup) {
        AgreesAtTheEnd(front, lookup);
        LastCutAgreesIff(chunks, front, lookup);
      }
    }
  }

  lemma NothingSentAgrees(lookup: map<string, string>)
    ensures AlwaysAgrees([], lookup) && AllCutsAgree([], lookup)
  {
    assert Emitted([], lookup) == Rewritten(false, Joined([]), lookup);
  }

  // ----- Tokens in a stream -----

  /** A token that is cut in two comes out unrestored: the halves add up only if its value is the token itself. */
  lemma SplitTokenAgreesIff(a: string, b: string, lookup: map<string, string>)
    requires WordCores(lookup) && InsideRun(a, b) && IsCore(Trail(a) + Lead(b), lookup)
    requires !IsCore(Trail(a), lookup) && !IsCore(Lead(b), lookup)
    ensures Rewritten(false, a + b, lookup) == Rewritten(false, a, lookup) + Rewritten(false, b, lookup)
       <==> lookup[FoldAll(Trail(a) + Lead(b))] == OpeningOf(a) + (Trail(a) + Lead(b)) + ClosingOf(b)
  {
    CutInsideRunAgreesIff(a, b, lookup);
    HalvesAddUp(OpeningOf(a), Trail(a), Lead(b), ClosingOf(b));
  }

  lemma HalvesAddUp(open: string, p: string, q: string, close: string)
    ensures (open + p + "") + ("" + q + close) == open + (p + q) + close
  {
  }

  /**
   A cut that splits no token can still make one: what follows had kept the pattern from matching, as in `EMAIL_1`
   and `0`.
   */
  lemma CutMakesAToken(core: string, more: string, lookup: map<string, string>)
    requires AllWord(core) && AllWord(more) && core != "" && more != ""
    requires IsCore(core, lookup) && !IsCore(more, lookup) && !IsCore(core + more, lookup)
    ensures Rewritten(false, core + more, lookup) == core + more
    ensures Rewritten(false, core, lookup) + Rewritten(false, more, lookup) == lookup[FoldAll(core)] + more
  {
    WholeRun(core, lookup);
    WholeRun(more, lookup);
    WholeRun(core + more, lookup);
  }

  lemma WholeRun(run: string, lookup: map<string, string>)
    requires run != "" && AllWord(run)
    ensures Rewritten(false, run, lookup) == if IsCore(run, lookup) then lookup[FoldAll(run)] else run
  {
    BareRun(run);
    if IsCore(run, lookup) {
      MatchedRun("", run, "", "", lookup);
    } else {
      UnmatchedRun(run, "", lookup);
    }
    assert Rewritten(true, "", lookup) == "";
  }

  lemma BareRun(run: string)
    ensures "" + (run + ("" + "")) == run && run + "" == run
  {
  }

  /** The text from a token's core on. */
  lemma CoreComesOut(core: string, after: string, lookup: map<string, string>)
    requires WordCores(lookup) && AllWord(core) && IsCore(core, lookup)
    ensures ClosingOf(core + ("]" + after)) == if Lead(after) == "" then "]" else ""
    ensures Rewritten(ClosingOf(core + ("]" + after)) == "", BehindRun(core + ("]" + after)), lookup)
         == (if Lead(after) == "" then "" else "]") + Rewritten(false, after, lookup)
    ensures Lead(core + ("]" + after)) == core
  {
    assert Run("]" + after) == 0 && ("]" + after)[1..] == after;
    RunInFront(core, "]" + after);
    var t := core + ("]" + after);
    assert t[|core|..] == "]" + after;
    if Lead(after) == "" {
      assert t[|core| + 1..] == after;
    } else {
      BracketStays(true, after, lookup);
    }
  }

  /**
   A bracketed token anywhere in a text is replaced; next to a letter, digit or underscore its bracket on that side
   stays behind.
   */
  lemma TokenComesOut(before: string, core: string, after: string, lookup: map<string, string>)
    requires WordCores(lookup) && AllWord(core) && IsCore(core, lookup)
    ensures Rewritten(false, (before + "[") + (core + ("]" + after)), lookup)
         == (Rewritten(false, before, lookup) + (if Trail(before) == "" then "" else "["))
            + (lookup[FoldAll(core)] + ((if Lead(after) == "" then "" else "]") + Rewritten(false, after, lookup)))
  {
    var tail := core + ("]" + after);
    NoEmptyCore(core, lookup);
    CoreComesOut(core, after, lookup);
    RunAtTheStart(tail);
    if Trail(before) == "" {
      OpenedToken(before, tail, lookup);
    } else {
      BesideARun(before, tail, lookup);
    }
    SecondHalf(tail, lookup);
  }

  lemma OpenedToken(before: string, tail: string, lookup: map<string, string>)
    requires WordCores(lookup) && Trail(before) == "" && IsCore(Lead(tail), lookup)
    ensures Rewritten(false, (before + "[") + tail, lookup)
         == (Rewritten(false, before, lookup) + "") + Rewritten(false, tail, lookup)
  {
    EndsInNoRun(before);
    OpenedInFront(before, (before + "[") + tail, tail, lookup);
    assert Rewritten(false, before, lookup) + "" == Rewritten(false, before, lookup);
  }

  /** The look-behind fails at the bracket, but not behind it. */
  lemma BesideARun(before: string, tail: string, lookup: map<string, string>)
    requires WordCores(lookup) && Trail(before) != ""
    ensures Rewritten(false, (before + "[") + tail, lookup)
         == (Rewritten(false, before, lookup) + "[") + Rewritten(false, tail, lookup)
  {
    EndsInNoRun(before);
    BeforeABracket(before, "[" + tail, lookup);
    Associate(before, "[", tail);
    CleanCutSplits(before, "[" + tail, lookup);
    PlainStep(true, '[', tail, lookup);
    Associate(Rewritten(false, before, lookup), "[", Rewritten(false, tail, lookup));
  }

  // ----- The cores of a session -----

  ghost predicate WordTypes(s: Tokenization.Session) {
    forall t :: t in s.counters ==> AllWord(t)
  }

  lemma NothingToStrip(s: string)
    requires s != "" && AllWord(s)
    ensures Stripped(s + "]") == s && Stripped("[" + (s + "]")) == s
  {
    assert IsWord(s[0]) && IsWord(s[|s| - 1]);
    assert Front(s + "]") == s;
    assert ("[" + (s + "]"))[1..] == s + "]";
  }

  lemma TokenIsStripped(t: string, n: nat)
    requires AllWord(t)
    ensures var core := t + "_" + Decimal(n);
            Tokenization.TokenText(t, n) == "[" + (core + "]") && Stripped(Tokenization.TokenText(t, n)) == core
            && core != "" && AllWord(core)
  {
    var core := t + "_" + Decimal(n);
    Sessions.DecimalIsDigits(n);
    assert AllWord(core);
    NothingToStrip(core);
    assert Tokenization.TokenText(t, n) == "[" + (core + "]");
  }

  lemma {:induction false} CoresComeFromTokens(order: seq<string>, mapping: map<string, string>, k: string) returns (t: string)
    requires (forall t :: t in order ==> t in mapping) && k in CoresOf(order, mapping)
    ensures t in order && FoldAll(Stripped(t)) == k && CoresOf(order, mapping)[k] == mapping[t]
  {
    if k == FoldAll(Stripped(Last(order))) {
      t := Last(order);
    } else {
      t := CoresComeFromTokens(Front(order), mapping, k);
    }
  }

  lemma {:induction false} EveryTokenHasACore(order: seq<string>, mapping: map<string, string>, t: string)
    requires (forall t :: t in order ==> t in mapping) && t in order
    ensures FoldAll(Stripped(t)) in CoresOf(order, mapping)
  {
    if t != Last(order) {
      assert order == Front(order) + [Last(order)];
      EveryTokenHasACore(Front(order), mapping, t);
    }
  }

  lemma IssuedIsStripped(s: Tokenization.Session, k: Tokenization.Key)
    requires Sessions.HasOrigins(s) && WordTypes(s) && k in s.issued
    ensures var core := Stripped(s.issued[k]);
            s.issued[k] == "[" + (core + "]") && core != "" && AllWord(core)
  {
    var origin: map<Tokenization.Key, Sessions.Origin> :| Sessions.Explains(s, origin);
    var o := Sessions.OriginOf(s, origin, k);
    TokenIsStripped(o.shortType, o.index);
  }

  lemma SameCoreSameToken(s: Tokenization.Session, j: Tokenization.Key, k: Tokenization.Key)
    requires Sessions.Sound(s) && WordTypes(s) && j in s.issued && k in s.issued
    requires FoldAll(Stripped(s.issued[j])) == FoldAll(Stripped(s.issued[k]))
    ensures j == k
  {
    IssuedIsStripped(s, j);
    IssuedIsStripped(s, k);
    FoldBrackets(Stripped(s.issued[j]));
    FoldBrackets(Stripped(s.issued[k]));
    Sessions.TokensAreDistinct(s, j, k);
  }

  lemma FoldBrackets(core: string)
    ensures FoldAll("[" + (core + "]")) == "[" + (FoldAll(core) + "]")
  {
  }

  lemma CoresAreWords(s: Tokenization.Session, mapping: map<string, string>, order: seq<string>)
    requires Sessions.HasOrigins(s) && WordTypes(s) && Sessions.MappingOk(s, mapping)
    requires forall t :: t in order ==> t in mapping
    ensures WordCores(CoresOf(order, mapping))
  {
    var cores := CoresOf(order, mapping);
    forall k | k in cores ensures k != "" && AllWord(k) {
      var u := CoresComeFromTokens(order, mapping, k);
      assert Sessions.TokenIsIssued(s, mapping, u);
      IssuedIsStripped(s, (mapping[u], true));
      FoldKeepsWord(Stripped(u));
    }
  }

  /**
   For a session whose types are words and distinct up to case, the stage's lookup has word cores, and every reversible
   token is looked up as its value.
   */
  lemma SessionCores(s: Tokenization.Session, mapping: map<string, string>, order: seq<string>, t: string)
    requires Sessions.Sound(s) && WordTypes(s) && Sessions.MappingOk(s, mapping)
    requires (forall t :: t in order <==> t in mapping) && t in mapping
    ensures WordCores(CoresOf(order, mapping))
    ensures Get(CoresOf(order, mapping), FoldAll(Stripped(t))) == Some(mapping[t])
  {
    CoresAreWords(s, mapping, order);
    EveryTokenHasACore(order, mapping, t);
    var u := CoresComeFromTokens(order, mapping, FoldAll(Stripped(t)));
    assert Sessions.TokenIsIssued(s, mapping, u) && Sessions.TokenIsIssued(s, mapping, t);
    SameCoreSameToken(s, (mapping[t], true), (mapping[u], true));
  }
}
