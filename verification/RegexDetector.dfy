/**
 Overlap removal inside the regex detector (detection/regex_detector.py, `_collapse_overlaps`).  Unlike the
 arbiter it drops the losing span instead of widening the winner.
 */
module RegexDetector {
  import opened Catalogue
  import opened Intervals
  import opened Sorting

  datatype Match = Match(entityType: string, start: int, end: int, score: real)

  /** By start, the longest first. */
  predicate LongestFirst(a: Match, b: Match) {
    a.start < b.start || (a.start == b.start && a.end >= b.end)
  }

  predicate Disjoint(a: Match, b: Match) {
    a.end <= b.start || b.end <= a.start
  }

  predicate Holds(a: Match, b: Match) {
    a.start <= b.start && a.end >= b.end
  }

  /** Whether an incoming span takes the place of the accepted one that it overlaps. */
  predicate Replaces(cat: Catalogue, span: Match, accepted: Match) {
    if Holds(span, accepted) && !Holds(accepted, span) then true
    else if Holds(accepted, span) && !Holds(span, accepted) then false
    else cat.Rank(span.entityType) > cat.Rank(accepted.entityType)
  }

  predicate AllNonEmpty(ms: seq<Match>) {
    forall i :: 0 <= i < |ms| ==> ms[i].start < ms[i].end
  }

  ghost predicate Separate(ms: seq<Match>) {
    AllNonEmpty(ms) && forall i, j :: 0 <= i < j < |ms| ==> ms[i].end <= ms[j].start
  }

  function CollapseNext(cat: Catalogue, kept: seq<Match>, span: Match): seq<Match> {
    if kept == [] || Last(kept).end <= span.start then kept + [span]
    else if Replaces(cat, span, Last(kept)) then Front(kept) + [span]
    else kept
  }

  function Collapse(cat: Catalogue, ms: seq<Match>): seq<Match> {
    if ms == [] then [] else CollapseNext(cat, Collapse(cat, Front(ms)), Last(ms))
  }

  method CollapseOverlaps(cat: Catalogue, results: seq<Match>) returns (kept: seq<Match>)
    requires AllNonEmpty(results)
    ensures kept == Collapse(cat, Sort(results, LongestFirst))
  {
    if |results| < 2 {
      assert |results| == 1 ==> Front(results) == [] && results[1..] == [];
      return results;
    }
    var ordered := Sort(results, LongestFirst);
    OrderedIsReady(results);
    kept := [];
    for k := 0 to |ordered|
      invariant kept == Collapse(cat, ordered[..k])
    {
      assert Front(ordered[..k + 1]) == ordered[..k];
      PrefixIsReady(ordered, k);
      CollapseKeeps(cat, ordered[..k]);
      StartsBefore(cat, ordered, k);
      assert forall i :: 0 <= i < |kept| ==> kept[i] in kept;
      kept := Place(cat, kept, ordered[k]);
    }
    assert ordered[..|ordered|] == ordered;
  }

  /** The inner loop: the first accepted span that overlaps decides. */
  method Place(cat: Catalogue, accepted: seq<Match>, span: Match) returns (kept: seq<Match>)
    requires Separate(accepted) && span.start < span.end
    requires forall i :: 0 <= i < |accepted| ==> accepted[i].start <= span.start
    ensures kept == CollapseNext(cat, accepted, span)
  {
    kept := accepted;
    var i := 0;
    while i < |kept|
      invariant 0 <= i <= |kept| && kept == accepted
      invariant forall j :: 0 <= j < i ==> Disjoint(span, kept[j])
    {
      if Disjoint(span, kept[i]) {
        i := i + 1;
        continue;
      }
      assert forall j :: 0 <= j < |kept| - 1 ==> kept[j].end <= kept[|kept| - 1].start;
      if Replaces(cat, span, kept[i]) {
        kept := kept[i := span];
      }
      return;
    }
    assert kept != [] ==> Disjoint(span, kept[|kept| - 1]);
    kept := kept + [span];
  }

  // ----- What the fold keeps -----

  lemma OrderedIsReady(results: seq<Match>)
    requires AllNonEmpty(results)
    ensures var s := Sort(results, LongestFirst); AllNonEmpty(s) && SortedBy(s, LongestFirst)
  {
    var s := Sort(results, LongestFirst);
    SortKeepsMembers(results, LongestFirst);
    SortSorts(results, LongestFirst);
    forall i | 0 <= i < |s| ensures s[i].start < s[i].end {
      assert s[i] in results;
    }
  }

  lemma PrefixIsReady(ms: seq<Match>, k: nat)
    requires k <= |ms| && AllNonEmpty(ms) && SortedBy(ms, LongestFirst)
    ensures AllNonEmpty(ms[..k]) && SortedBy(ms[..k], LongestFirst)
  {
  }

  lemma {:induction false} CollapseMembers(cat: Catalogue, ms: seq<Match>)
    ensures forall x :: x in Collapse(cat, ms) ==> x in ms
  {
    if ms == [] {
    } else {
      CollapseMembers(cat, Front(ms));
      assert ms == Front(ms) + [Last(ms)];
    }
  }

  lemma StartsBefore(cat: Catalogue, ms: seq<Match>, k: nat)
    requires k < |ms| && AllNonEmpty(ms) && SortedBy(ms, LongestFirst)
    ensures forall x :: x in Collapse(cat, ms[..k]) ==> LongestFirst(x, ms[k])
  {
    CollapseMembers(cat, ms[..k]);
    forall x | x in ms[..k] ensures LongestFirst(x, ms[k]) {
      var i :| 0 <= i < k && ms[i] == x;
    }
  }

  lemma {:induction false} CollapseKeeps(cat: Catalogue, ms: seq<Match>)
    requires AllNonEmpty(ms) && SortedBy(ms, LongestFirst)
    ensures Separate(Collapse(cat, ms))
  {
    if ms == [] {
    } else {
      PrefixIsReady(ms, |ms| - 1);
      CollapseKeeps(cat, Front(ms));
      StartsBefore(cat, ms, |ms| - 1);
      var kept := Collapse(cat, Front(ms));
      assert kept != [] ==> Last(kept) in kept;
      NextStaysSeparate(cat, kept, Last(ms));
    }
  }

  lemma NextStaysSeparate(cat: Catalogue, kept: seq<Match>, x: Match)
    requires Separate(kept) && x.start < x.end && (kept != [] ==> Last(kept).start <= x.start)
    ensures Separate(CollapseNext(cat, kept, x))
  {
    forall i | 0 <= i < |kept| - 1 ensures kept[i].end <= x.start {
      assert kept[i].end <= kept[|kept| - 1].start;
    }
  }

  lemma {:induction false} CollapseSelects(cat: Catalogue, ms: seq<Match>)
    ensures multiset(Collapse(cat, ms)) <= multiset(ms)
  {
    if ms == [] {
    } else {
      CollapseSelects(cat, Front(ms));
      NextSelects(cat, Collapse(cat, Front(ms)), Last(ms));
      CountLast(ms);
    }
  }

  lemma CountLast(ms: seq<Match>)
    requires ms != []
    ensures multiset(ms) == multiset(Front(ms)) + multiset{Last(ms)}
  {
    assert ms == Front(ms) + [Last(ms)];
  }

  lemma NextSelects(cat: Catalogue, kept: seq<Match>, x: Match)
    ensures multiset(CollapseNext(cat, kept, x)) <= multiset(kept) + multiset{x}
  {
    if kept != [] {
      CountLast(kept);
    }
  }

  /** The result is a selection of the input whose spans share no character, in text order. */
  lemma SurvivorsAreDisjointInputs(cat: Catalogue, results: seq<Match>)
    requires AllNonEmpty(results)
    ensures var kept := Collapse(cat, Sort(results, LongestFirst));
            Separate(kept) && multiset(kept) <= multiset(results)
  {
    OrderedIsReady(results);
    CollapseKeeps(cat, Sort(results, LongestFirst));
    CollapseSelects(cat, Sort(results, LongestFirst));
    SortPermutes(results, LongestFirst);
  }

  // ----- A containing span is never lost -----

  /** `x` strictly contains every other span that it overlaps. */
  ghost predicate Dominates(x: Match, ms: seq<Match>) {
    forall y :: y in ms ==> y == x || Disjoint(x, y) || (Holds(x, y) && !Holds(y, x))
  }

  lemma DominantIsPlaced(cat: Catalogue, kept: seq<Match>, x: Match, z: Match)
    requires Separate(kept) && x.start < x.end && z.start < z.end
    requires forall y :: y in kept ==> LongestFirst(y, z) && (y == x || Disjoint(x, y) || (Holds(x, y) && !Holds(y, x)))
    requires z == x || Disjoint(x, z) || (Holds(x, z) && !Holds(z, x))
    requires x in kept || z == x
    ensures x in CollapseNext(cat, kept, z)
  {
    if kept != [] && Last(kept).end > z.start {
      var last := Last(kept);
      assert last in kept && kept == Front(kept) + [last];
    }
  }

  lemma {:induction false} DominantSurvives(cat: Catalogue, ms: seq<Match>, x: Match)
    requires AllNonEmpty(ms) && SortedBy(ms, LongestFirst)
    requires x in ms && Dominates(x, ms)
    ensures x in Collapse(cat, ms)
  {
    var front, z := Front(ms), Last(ms);
    assert ms == front + [z];
    PrefixIsReady(ms, |ms| - 1);
    CollapseKeeps(cat, front);
    CollapseMembers(cat, front);
    StartsBefore(cat, ms, |ms| - 1);
    if x in front {
      DominantSurvives(cat, front, x);
    }
    DominantIsPlaced(cat, Collapse(cat, front), x, z);
  }

  /** For instance a card number always survives the shorter phone-number matches inside it. */
  lemma ContainingSpanSurvives(cat: Catalogue, results: seq<Match>, x: Match)
    requires AllNonEmpty(results) && x in results && Dominates(x, results)
    ensures x in Collapse(cat, Sort(results, LongestFirst))
  {
    OrderedIsReady(results);
    SortKeepsMembers(results, LongestFirst);
    DominantSurvives(cat, Sort(results, LongestFirst), x);
  }

  /** The branch for an incoming span that strictly contains an accepted one is never taken. */
  lemma ContainmentBranchIsDead(cat: Catalogue, results: seq<Match>, k: nat, accepted: Match)
    requires AllNonEmpty(results) && k < |Sort(results, LongestFirst)|
    requires accepted in Collapse(cat, Sort(results, LongestFirst)[..k])
    ensures var span := Sort(results, LongestFirst)[k]; !(Holds(span, accepted) && !Holds(accepted, span))
  {
    OrderedIsReady(results);
    StartsBefore(cat, Sort(results, LongestFirst), k);
  }

  // ----- What lies inside a longer match is dropped, unless that match lost to one that crosses its start -----

  ghost predicate InOrder(ms: seq<Match>) {
    AllNonEmpty(ms) && SortedBy(ms, LongestFirst)
  }

  ghost predicate StrictlyInside(x: Match, a: Match) {
    Holds(a, x) && !Holds(x, a)
  }

  /** On arrival `a` loses to the last accepted match, which crosses its start. */
  predicate TurnedAway(cat: Catalogue, kept: seq<Match>, a: Match) {
    && kept != [] && a.start < Last(kept).end < a.end
    && cat.Rank(a.entityType) <= cat.Rank(Last(kept).entityType)
  }

  /** `kept` reaches as far as `a` does and keeps nothing that lies inside `a`. */
  ghost predicate Shades(kept: seq<Match>, a: Match) {
    kept != [] && Last(kept).end >= a.end && forall y :: y in kept ==> !StrictlyInside(y, a)
  }

  lemma ArrivalShades(cat: Catalogue, kept: seq<Match>, a: Match)
    requires a.start < a.end && forall y :: y in kept ==> LongestFirst(y, a)
    requires !TurnedAway(cat, kept, a)
    ensures Shades(CollapseNext(cat, kept, a), a)
  {
    var kept' := CollapseNext(cat, kept, a);
    if kept != [] {
      assert Last(kept) in kept && LongestFirst(Last(kept), a);
    }
    forall y | y in kept' ensures !StrictlyInside(y, a) {
      assert y == a || (y in kept && LongestFirst(y, a));
    }
  }

  lemma LaterStaysShaded(cat: Catalogue, kept: seq<Match>, a: Match, z: Match)
    requires Shades(kept, a) && z.start < z.end && Last(kept).start <= z.start
    ensures Shades(CollapseNext(cat, kept, z), a)
  {
    assert Last(kept) in kept;
  }

  lemma {:induction false} ShadedFrom(cat: Catalogue, ms: seq<Match>, k: nat)
    requires InOrder(ms) && k < |ms| && !TurnedAway(cat, Collapse(cat, ms[..k]), ms[k])
    ensures Shades(Collapse(cat, ms), ms[k])
  {
    var front, n := Front(ms), |ms| - 1;
    StartsBefore(cat, ms, n);
    if k == n {
      ArrivalShades(cat, Collapse(cat, front), ms[n]);
    } else {
      PrefixIsReady(ms, n);
      assert front[..k] == ms[..k];
      ShadedFrom(cat, front, k);
      assert Last(Collapse(cat, front)) in Collapse(cat, front);
      LaterStaysShaded(cat, Collapse(cat, front), ms[k], ms[n]);
    }
  }

  /** Whatever still follows, no match that lies strictly inside `a` survives. */
  ghost predicate AlwaysPreferred(cat: Catalogue, before: seq<Match>, a: Match) {
    forall tail, y :: InOrder(before + [a] + tail) && y in Collapse(cat, before + [a] + tail) ==> !StrictlyInside(y, a)
  }

  /** The longer match is preferred to everything inside it exactly when it is not turned away on arrival. */
  lemma ContainedMatchesAreDroppedIff(cat: Catalogue, before: seq<Match>, a: Match)
    requires InOrder(before + [a])
    ensures AlwaysPreferred(cat, before, a) <==> !TurnedAway(cat, Collapse(cat, before), a)
  {
    if TurnedAway(cat, Collapse(cat, before), a) {
      var y := SurvivorInside(cat, before, a);
    } else {
      forall tail, y | InOrder(before + [a] + tail) && y in Collapse(cat, before + [a] + tail)
        ensures !StrictlyInside(y, a)
      {
        var ms := before + [a] + tail;
        assert ms[..|before|] == before && ms[|before|] == a;
        ShadedFrom(cat, ms, |before|);
      }
    }
  }

  /** Behind the match that `a` lost to, the rest of `a` can be reported on its own, and then it survives. */
  lemma SurvivorInside(cat: Catalogue, before: seq<Match>, a: Match) returns (y: Match)
    requires InOrder(before + [a]) && TurnedAway(cat, Collapse(cat, before), a)
    ensures StrictlyInside(y, a) && InOrder(before + [a] + [y]) && y in Collapse(cat, before + [a] + [y])
  {
    var kept := Collapse(cat, before);
    CollapseAppend(cat, before, a);
    CrossesOnTheLeft(cat, before, a);
    assert Collapse(cat, before + [a]) == kept;
    y := a.(start := Last(kept).end);
    CollapseAppend(cat, before + [a], y);
    AppendInOrder(before + [a], y);
  }

  lemma CollapseAppend(cat: Catalogue, ms: seq<Match>, z: Match)
    ensures Collapse(cat, ms + [z]) == CollapseNext(cat, Collapse(cat, ms), z)
  {
    assert Front(ms + [z]) == ms && Last(ms + [z]) == z;
  }

  /** What turns `a` away starts before it, because among equal starts the longest comes first. */
  lemma CrossesOnTheLeft(cat: Catalogue, before: seq<Match>, a: Match)
    requires InOrder(before + [a]) && TurnedAway(cat, Collapse(cat, before), a)
    ensures Last(Collapse(cat, before)).start < a.start
  {
    var ms := before + [a];
    StartsBefore(cat, ms, |before|);
    assert ms[..|before|] == before && Last(Collapse(cat, before)) in Collapse(cat, before);
  }

  lemma AppendInOrder(ms: seq<Match>, y: Match)
    requires InOrder(ms) && ms != [] && y.start < y.end && LongestFirst(Last(ms), y)
    ensures InOrder(ms + [y])
  {
    forall i | 0 <= i < |ms| ensures LongestFirst(ms[i], y) {
      assert i == |ms| - 1 || LongestFirst(ms[i], ms[|ms| - 1]);
    }
  }

  /** The same for a whole list of results. */
  lemma ContainingMatchIsPreferred(cat: Catalogue, results: seq<Match>, k: nat, x: Match)
    requires AllNonEmpty(results) && k < |Sort(results, LongestFirst)|
    requires var ms := Sort(results, LongestFirst);
             !TurnedAway(cat, Collapse(cat, ms[..k]), ms[k]) && StrictlyInside(x, ms[k])
    ensures x !in Collapse(cat, Sort(results, LongestFirst))
  {
    OrderedIsReady(results);
    ShadedFrom(cat, Sort(results, LongestFirst), k);
  }

  /** Every match that crosses the start of `a` ranks lower than `a`. */
  ghost predicate OutranksItsCrossings(cat: Catalogue, a: Match, ms: seq<Match>) {
    forall x :: x in ms && x.start < a.start < x.end < a.end ==> cat.Rank(x.entityType) < cat.Rank(a.entityType)
  }

  /** A condition on the inputs alone that keeps a match from being turned away. */
  lemma ContainedMatchesAreDropped(cat: Catalogue, results: seq<Match>, a: Match, x: Match)
    requires AllNonEmpty(results) && a in results && StrictlyInside(x, a)
    requires OutranksItsCrossings(cat, a, results)
    ensures x !in Collapse(cat, Sort(results, LongestFirst))
  {
    var ms := Sort(results, LongestFirst);
    OrderedIsReady(results);
    SortKeepsMembers(results, LongestFirst);
    var k :| 0 <= k < |ms| && ms[k] == a;
    var kept := Collapse(cat, ms[..k]);
    StartsBefore(cat, ms, k);
    CollapseMembers(cat, ms[..k]);
    if kept != [] {
      assert Last(kept) in kept && Last(kept) in ms;
    }
    ContainingMatchIsPreferred(cat, results, k, x);
  }

  /** A match that lost to a crossing one leaves the matches behind it to survive, although it contains them. */
  lemma ContainedMatchCanSurvive(cat: Catalogue, x: Match, a: Match, y: Match)
    requires x.start < a.start < x.end <= y.start < y.end < a.end
    requires cat.Rank(a.entityType) <= cat.Rank(x.entityType)
    ensures Collapse(cat, Sort([x, a, y], LongestFirst)) == [x, y] && StrictlyInside(y, a)
  {
    SortedIsFixed([x, a, y], LongestFirst);
    assert Front([x, a, y]) == [x, a] && Front([x, a]) == [x] && Front([x]) == [];
    assert Collapse(cat, [x]) == [x];
    assert Collapse(cat, [x, a]) == [x];
  }

  // ----- The last accepted match, from the inputs alone -----

  /** With `x` accepted last, `z` changes nothing. */
  predicate Blocks(cat: Catalogue, x: Match, z: Match) {
    z.start < x.end && !Replaces(cat, z, x)
  }

  /**
   The positions at which the last accepted match changes: the first input, then each time the first input that is
   not blocked by the one before, until everything that is left is blocked.
   */
  ghost predicate Takeovers(cat: Catalogue, ms: seq<Match>, at: seq<nat>) {
    && at != [] && at[0] == 0
    && (forall j :: 0 <= j < |at| ==> at[j] < |ms|)
    && (forall j :: 0 <= j < |at| - 1 ==> TakesOver(cat, ms, at[j], at[j + 1]))
    && BlocksUntil(cat, ms, at[|at| - 1], |ms|)
  }

  ghost predicate TakesOver(cat: Catalogue, ms: seq<Match>, p: nat, q: nat)
    requires p < |ms| && q < |ms|
  {
    p < q && BlocksUntil(cat, ms, p, q) && !Blocks(cat, ms[p], ms[q])
  }

  ghost predicate BlocksUntil(cat: Catalogue, ms: seq<Match>, p: nat, q: nat)
    requires p < |ms| && q <= |ms|
  {
    forall k :: p < k < q ==> Blocks(cat, ms[p], ms[k])
  }

  lemma LastAfter(cat: Catalogue, kept: seq<Match>, z: Match)
    requires kept != []
    ensures CollapseNext(cat, kept, z) != []
    ensures Last(CollapseNext(cat, kept, z)) == if Blocks(cat, Last(kept), z) then Last(kept) else z
  {
  }

  lemma {:induction false} TakeoversExist(cat: Catalogue, ms: seq<Match>) returns (at: seq<nat>)
    requires ms != []
    ensures Takeovers(cat, ms, at) && Collapse(cat, ms) != [] && Last(Collapse(cat, ms)) == ms[at[|at| - 1]]
  {
    var front, n := Front(ms), |ms| - 1;
    if n == 0 {
      assert Collapse(cat, front) == [];
      at := [0];
    } else {
      var before := TakeoversExist(cat, front);
      LastAfter(cat, Collapse(cat, front), ms[n]);
      at := NextTakeover(cat, ms, before);
    }
  }

  lemma NextTakeover(cat: Catalogue, ms: seq<Match>, before: seq<nat>) returns (at: seq<nat>)
    requires ms != [] && Takeovers(cat, Front(ms), before)
    ensures Takeovers(cat, ms, at)
    ensures var last, z := ms[before[|before| - 1]], Last(ms);
            ms[at[|at| - 1]] == if Blocks(cat, last, z) then last else z
  {
    var n, last := |ms| - 1, before[|before| - 1];
    forall j | 0 <= j < |before| - 1 ensures TakesOver(cat, ms, before[j], before[j + 1]) {
      assert TakesOver(cat, Front(ms), before[j], before[j + 1]);
      BlocksInFront(cat, ms, before[j], before[j + 1]);
    }
    BlocksInFront(cat, ms, last, n);
    if Blocks(cat, ms[last], ms[n]) {
      at := before;
    } else {
      at := before + [n];
      assert TakesOver(cat, ms, at[|before| - 1], at[|before|]);
      assert forall j :: 0 <= j < |before| ==> at[j] == before[j];
    }
  }

  lemma BlocksInFront(cat: Catalogue, ms: seq<Match>, p: nat, q: nat)
    requires p < q <= |ms| - 1
    ensures BlocksUntil(cat, ms, p, q) <==> BlocksUntil(cat, Front(ms), p, q)
  {
    assert forall k :: 0 <= k < q ==> ms[k] == Front(ms)[k];
  }

  /** The positions are determined by the inputs. */
  lemma {:induction false} TakeoversAreUnique(cat: Catalogue, ms: seq<Match>, a: seq<nat>, b: seq<nat>, j: nat)
    requires Takeovers(cat, ms, a) && Takeovers(cat, ms, b) && j < |a|
    ensures j < |b| && a[j] == b[j]
  {
    if j == 0 {
    } else {
      TakeoversAreUnique(cat, ms, a, b, j - 1);
      assert TakesOver(cat, ms, a[j - 1], a[j]);
      if j < |b| {
        assert TakesOver(cat, ms, b[j - 1], b[j]);
      }
    }
  }

  /** Whether a match is turned away can be told from the inputs before it. */
  lemma TurnedAwayIff(cat: Catalogue, before: seq<Match>, a: Match)
    ensures TurnedAway(cat, Collapse(cat, before), a)
       <==> exists at: seq<nat> :: Takeovers(cat, before, at)
                      && a.start < before[at[|at| - 1]].end < a.end
                      && cat.Rank(a.entityType) <= cat.Rank(before[at[|at| - 1]].entityType)
  {
    if before != [] {
      var at := TakeoversExist(cat, before);
      forall b: seq<nat> | Takeovers(cat, before, b) ensures b[|b| - 1] == at[|at| - 1] {
        TakeoversAreUnique(cat, before, at, b, |at| - 1);
        TakeoversAreUnique(cat, before, b, at, |b| - 1);
      }
    }
  }
}
