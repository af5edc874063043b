/**
 What the regex detector's overlap removal covers (detection/regex_detector.py, `_collapse_overlaps`): exactly when
 no detected character is lost, and exactly when the survivors are what arbitration would give.
 */
module RegexCoverage {
  import opened Catalogue
  import opened Intervals
  import opened RegexDetector
  import opened Sorting

  // ----- When collapsing agrees with arbitration -----

  function Ranges(ms: seq<Match>): (rs: seq<Range>)
    ensures |rs| == |ms|
  {
    seq(|ms|, i requires 0 <= i < |ms| => Range(ms[i].start, ms[i].end))
  }

  /** Every overlap component is the range of a single match. */
  ghost predicate Spanned(rs: seq<Range>) {
    forall c :: IsComponent(rs, c) ==> c in rs
  }

  lemma RangesAreReady(ms: seq<Match>)
    requires AllNonEmpty(ms) && SortedBy(ms, LongestFirst)
    ensures NonEmpty(Ranges(ms)) && SortedByStart(Ranges(ms))
  {
    forall i, j | 0 <= i < j < |ms| ensures ms[i].start <= ms[j].start {
      assert LongestFirst(ms[i], ms[j]);
    }
  }

  /** A solid stretch begins where some range begins. */
  lemma SomeoneStartsIt(rs: seq<Range>, o: Range) returns (i: nat)
    requires Solid(rs, o) && !Linked(rs, o.start) && !Linked(rs, o.end) && o.start < o.end
    ensures i < |rs| && rs[i].start == o.start && rs[i].end <= o.end
  {
    var r :| r in rs && r.start <= o.start < r.end;
    i :| 0 <= i < |rs| && rs[i] == r;
  }

  /** What links a character no later than the `k`-th range is among the ranges before it. */
  lemma LinkedEarly(rs: seq<Range>, k: nat, p: int)
    requires SortedByStart(rs) && k < |rs| && p <= rs[k].start
    ensures Linked(rs[..k], p) <==> Linked(rs, p)
  {
    if Linked(rs, p) {
      var r :| r in rs && r.start < p < r.end;
      var m :| 0 <= m < |rs| && rs[m] == r;
      assert m < k && rs[..k][m] == r;
    }
  }

  /** The component that takes in the `k`-th range starts where the sweep so far had its last range. */
  lemma WidenedComponent(rs: seq<Range>, k: nat, last: Range, o: Range)
    requires SortedByStart(rs) && k < |rs|
    requires Solid(rs[..k], last) && !Linked(rs[..k], last.start) && last.start <= rs[k].start
    requires Solid(rs, o) && !Linked(rs, o.start) && Inside(rs[k], o)
    requires rs[k].start < last.end && rs[k].start < rs[k].end
    ensures o.start == last.start
  {
    LinkedEarly(rs, k, last.start);
    LinkedEarly(rs, k, o.start);
  }

  /** The one match that spans the component of `ms[k]`. */
  lemma SpanningMatch(ms: seq<Match>, k: nat, last: Range) returns (j: nat)
    requires AllNonEmpty(ms) && SortedBy(ms, LongestFirst) && k < |ms| && Spanned(Ranges(ms))
    requires Solid(Ranges(ms)[..k], last) && !Linked(Ranges(ms)[..k], last.start)
    requires last.start <= ms[k].start < last.end
    ensures j < |ms| && ms[j].start == last.start && ms[k].end <= ms[j].end
  {
    var rs := Ranges(ms);
    RangesAreReady(ms);
    assert rs[k] in rs;
    var o := ComponentOf(rs, rs[k]);
    WidenedComponent(rs, k, last, o);
    j :| 0 <= j < |rs| && rs[j] == o;
  }

  /** If every component is one match, no match ever reaches beyond the range it overlaps. */
  lemma NothingIsWidened(ms: seq<Match>, k: nat, last: Range)
    requires AllNonEmpty(ms) && SortedBy(ms, LongestFirst) && k < |ms| && Spanned(Ranges(ms))
    requires last in Sweep(Ranges(ms)[..k]) && last.start <= ms[k].start < last.end
    ensures ms[k].end <= last.end
  {
    var rs := Ranges(ms)[..k];
    RangesAreReady(ms);
    SweptRange(rs, last);
    var j := SpanningMatch(ms, k, last);
    var i := SomeoneStartsIt(rs, last);
    assert rs[i] == Range(ms[i].start, ms[i].end);
    if i < j {
      assert LongestFirst(ms[i], ms[j]);
    } else {
      assert rs[j] == Range(ms[j].start, ms[j].end);
      StaysWithin(rs, last, rs[j]);
    }
  }

  lemma SweptRange(rs: seq<Range>, o: Range)
    requires NonEmpty(rs) && SortedByStart(rs) && o in Sweep(rs)
    ensures IsComponent(rs, o) && Solid(rs, o)
  {
    SweepCovers(rs);
    CoversIsComponents(rs, Sweep(rs), o);
  }

  lemma ComponentOf(rs: seq<Range>, x: Range) returns (o: Range)
    requires NonEmpty(rs) && SortedByStart(rs) && x in rs
    ensures IsComponent(rs, o) && Solid(rs, o) && Inside(x, o)
  {
    SweepCovers(rs);
    assert Contains(Sweep(rs), x);
    o :| o in Sweep(rs) && Inside(x, o);
    SweptRange(rs, o);
  }

  lemma StaysWithin(rs: seq<Range>, last: Range, x: Range)
    requires x in rs && !Linked(rs, last.end) && x.start < last.end
    ensures x.end <= last.end
  {
  }

  lemma NextIsAbsorb(cat: Catalogue, kept: seq<Match>, x: Match)
    requires x.start < x.end && (kept != [] ==> Last(kept).start <= x.start)
    requires kept != [] && x.start < Last(kept).end ==> x.end <= Last(kept).end
    ensures Ranges(CollapseNext(cat, kept, x)) == Absorb(Ranges(kept), Range(x.start, x.end))
  {
    if kept != [] {
      assert Front(Ranges(kept)) == Ranges(Front(kept));
    }
  }

  lemma {:induction false} SpannedIsSwept(cat: Catalogue, ms: seq<Match>, k: nat)
    requires AllNonEmpty(ms) && SortedBy(ms, LongestFirst) && k <= |ms| && Spanned(Ranges(ms))
    ensures Ranges(Collapse(cat, ms[..k])) == Sweep(Ranges(ms)[..k])
  {
    if k == 0 {
      assert ms[..0] == [] && Ranges(ms)[..0] == [];
    } else {
      SpannedIsSwept(cat, ms, k - 1);
      StartsBefore(cat, ms, k - 1);
      StaysUnwidened(ms, k - 1, Collapse(cat, ms[..k - 1]));
      SweptStep(cat, ms, k - 1, Collapse(cat, ms[..k - 1]));
    }
  }

  lemma SweptStep(cat: Catalogue, ms: seq<Match>, k: nat, kept: seq<Match>)
    requires k < |ms| && ms[k].start < ms[k].end
    requires kept == Collapse(cat, ms[..k]) && Ranges(kept) == Sweep(Ranges(ms)[..k])
    requires kept != [] ==> Last(kept).start <= ms[k].start
    requires kept != [] && ms[k].start < Last(kept).end ==> ms[k].end <= Last(kept).end
    ensures Ranges(Collapse(cat, ms[..k + 1])) == Sweep(Ranges(ms)[..k + 1])
  {
    NextIsAbsorb(cat, kept, ms[k]);
    assert Front(ms[..k + 1]) == ms[..k] && Front(Ranges(ms)[..k + 1]) == Ranges(ms)[..k];
  }

  lemma StaysUnwidened(ms: seq<Match>, k: nat, kept: seq<Match>)
    requires AllNonEmpty(ms) && SortedBy(ms, LongestFirst) && k < |ms| && Spanned(Ranges(ms))
    requires Ranges(kept) == Sweep(Ranges(ms)[..k]) && forall y :: y in kept ==> LongestFirst(y, ms[k])
    ensures kept != [] ==> Last(kept).start <= ms[k].start
    ensures kept != [] && ms[k].start < Last(kept).end ==> ms[k].end <= Last(kept).end
  {
    if kept != [] {
      assert Last(kept) in kept;
      var last := Ranges(kept)[|kept| - 1];
      if ms[k].start < last.end {
        NothingIsWidened(ms, k, last);
      }
    }
  }

  lemma SameMatchesSameRanges(a: seq<Match>, b: seq<Match>)
    requires forall x :: x in a ==> x in b
    ensures forall r :: r in Ranges(a) ==> r in Ranges(b)
  {
    forall r | r in Ranges(a) ensures r in Ranges(b) {
      var i :| 0 <= i < |a| && Ranges(a)[i] == r;
      assert a[i] in b;
      var j :| 0 <= j < |b| && b[j] == a[i];
      assert Ranges(b)[j] == r;
    }
  }

  /**
   The survivors are the overlap components, as they would be after arbitration, exactly when every component is
   the range of a single match.  Then no detected character is lost.
   */
  lemma SurvivorsAreComponentsIff(cat: Catalogue, results: seq<Match>)
    requires AllNonEmpty(results)
    ensures var kept := Ranges(Collapse(cat, Sort(results, LongestFirst)));
            (forall c :: c in kept <==> IsComponent(Ranges(results), c)) <==> Spanned(Ranges(results))
  {
    var ms := Sort(results, LongestFirst);
    var kept := Collapse(cat, ms);
    OrderedIsReady(results);
    SortKeepsMembers(results, LongestFirst);
    CollapseMembers(cat, ms);
    SameMatchesSameRanges(kept, results);
    SameMatchesSameRanges(ms, results);
    SameMatchesSameRanges(results, ms);
    forall c ensures IsComponent(Ranges(ms), c) <==> IsComponent(Ranges(results), c) {
      SameComponents(Ranges(ms), Ranges(results), c);
    }
    if Spanned(Ranges(results)) {
      RangesAreReady(ms);
      SpannedIsSwept(cat, ms, |ms|);
      assert ms[..|ms|] == ms && Ranges(ms)[..|ms|] == Ranges(ms);
      SweepCovers(Ranges(ms));
      forall c ensures c in Ranges(kept) <==> IsComponent(Ranges(results), c) {
        CoversIsComponents(Ranges(ms), Sweep(Ranges(ms)), c);
      }
    }
  }

  // ----- When no detected character is lost -----

  ghost predicate Detected(ms: seq<Match>, p: int) {
    exists m :: m in ms && m.start <= p < m.end
  }

  ghost predicate KeepsCharacters(ms: seq<Match>, kept: seq<Match>) {
    forall p :: Detected(ms, p) ==> Detected(kept, p)
  }

  /** No match that begins where `t` does is longer. */
  ghost predicate Longest(t: Match, ms: seq<Match>) {
    forall z :: z in ms && z.start == t.start ==> z.end <= t.end
  }

  /** `z` begins inside `t` and ends behind it. */
  predicate Crosses(z: Match, t: Match) {
    t.start < z.start < t.end < z.end
  }

  predicate SameRange(x: Match, y: Match) {
    x.start == y.start && x.end == y.end
  }

  ghost predicate Matched(cat: Catalogue, ms: seq<Match>, t: Match, rank: nat) {
    exists r :: r in ms && SameRange(r, t) && rank <= cat.Rank(r.entityType)
  }

  /** Nothing that crosses the end of `t` outranks every match with the range of `t`. */
  ghost predicate Undefeated(cat: Catalogue, t: Match, ms: seq<Match>) {
    forall z :: z in ms && Crosses(z, t) ==> Matched(cat, ms, t, cat.Rank(z.entityType))
  }

  /** A selection of separate inputs that reports every detected character and that the collapse cannot break up. */
  ghost predicate Tiling(cat: Catalogue, tiles: seq<Match>, ms: seq<Match>) {
    && Separate(tiles) && KeepsCharacters(ms, tiles)
    && forall t :: t in tiles ==> t in ms && Longest(t, ms) && Undefeated(cat, t, ms)
  }

  // ----- If nothing is lost, the survivors are such a selection -----

  ghost predicate KeepsStarts(ms: seq<Match>, kept: seq<Match>) {
    forall z :: z in ms ==> Detected(kept, z.start)
  }

  /** `t` is longest where it starts, and what crosses its end does not outrank `t` itself. */
  ghost predicate Stands(cat: Catalogue, t: Match, ms: seq<Match>) {
    Longest(t, ms) && forall z :: z in ms && Crosses(z, t) ==> cat.Rank(z.entityType) <= cat.Rank(t.entityType)
  }

  lemma NextHoldsItsStart(cat: Catalogue, kept: seq<Match>, x: Match)
    requires x.start < x.end && (kept != [] ==> LongestFirst(Last(kept), x))
    ensures var next := CollapseNext(cat, kept, x);
            next != [] && Last(next).start <= x.start < Last(next).end
  {
  }

  lemma LastStartIsKept(cat: Catalogue, ms: seq<Match>)
    requires InOrder(ms) && ms != []
    ensures var kept := Collapse(cat, ms);
            kept != [] && Last(kept) in kept && Last(kept).start <= Last(ms).start < Last(kept).end
  {
    KeptSoFar(cat, ms, |ms| - 1);
    NextHoldsItsStart(cat, Collapse(cat, Front(ms)), Last(ms));
  }

  /** A start that is lost is lost for good. */
  lemma StartsWereKept(cat: Catalogue, ms: seq<Match>)
    requires InOrder(ms) && ms != [] && KeepsStarts(ms, Collapse(cat, ms))
    ensures KeepsStarts(Front(ms), Collapse(cat, Front(ms)))
  {
    MembersOf(ms);
    forall z | z in Front(ms) ensures Detected(Collapse(cat, Front(ms)), z.start) {
      assert Detected(Collapse(cat, ms), z.start);
      OneStartWasKept(cat, ms, z);
    }
  }

  lemma OneStartWasKept(cat: Catalogue, ms: seq<Match>, z: Match)
    requires InOrder(ms) && ms != [] && z in Front(ms) && Detected(Collapse(cat, ms), z.start)
    ensures Detected(Collapse(cat, Front(ms)), z.start)
  {
    var front, x := Front(ms), Last(ms);
    FrontStartsEarlier(ms);
    PrefixIsReady(ms, |ms| - 1);
    LastStartIsKept(cat, front);
    StartsInOrder(front);
    assert Last(front) in front;
    var m :| m in Collapse(cat, ms) && m.start <= z.start < m.end;
    assert m in Collapse(cat, front) || m == x;
  }

  lemma OldTileStands(cat: Catalogue, kept: seq<Match>, t: Match, x: Match)
    requires Separate(kept) && t in kept && t in CollapseNext(cat, kept, x) && LongestFirst(t, x)
    requires x.start < x.end && LongestFirst(Last(kept), x)
    ensures x.start == t.start ==> x.end <= t.end
    ensures Crosses(x, t) ==> cat.Rank(x.entityType) <= cat.Rank(t.entityType)
  {
    if x.start < t.end {
      assert kept == Front(kept) + [Last(kept)];
      if t in Front(kept) {
        FrontEndsEarlier(kept, t);
      }
    }
  }

  lemma FrontEndsEarlier(kept: seq<Match>, y: Match)
    requires kept != [] && Separate(kept) && y in Front(kept)
    ensures y.end <= Last(kept).start && y.start < Last(kept).start
  {
    var i :| 0 <= i < |kept| - 1 && kept[i] == y;
    assert kept[i].end <= kept[|kept| - 1].start;
  }

  /** A match that takes over without losing a start takes over the very same range. */
  lemma TakesTheSameRange(cat: Catalogue, kept: seq<Match>, x: Match)
    requires kept != [] && Separate(kept) && x.start < Last(kept).end && LongestFirst(Last(kept), x)
    requires Replaces(cat, x, Last(kept)) && Detected(CollapseNext(cat, kept, x), Last(kept).start)
    ensures SameRange(x, Last(kept))
  {
    var last := Last(kept);
    assert CollapseNext(cat, kept, x) == Front(kept) + [x];
    var m :| m in Front(kept) + [x] && m.start <= last.start < m.end;
    if m in Front(kept) {
      FrontEndsEarlier(kept, m);
    }
  }

  lemma NewTileStands(cat: Catalogue, ms: seq<Match>, kept: seq<Match>)
    requires InOrder(ms) && ms != [] && kept == Collapse(cat, Front(ms)) && Separate(kept)
    requires KeepsStarts(ms, CollapseNext(cat, kept, Last(ms)))
    requires kept != [] ==> Last(kept) in ms && Longest(Last(kept), Front(ms))
    requires kept == [] || Last(kept).end <= Last(ms).start || Replaces(cat, Last(ms), Last(kept))
    ensures Longest(Last(ms), Front(ms))
  {
    var front, x := Front(ms), Last(ms);
    PrefixIsReady(ms, |ms| - 1);
    StartsBefore(cat, ms, |ms| - 1);
    if kept != [] && x.start < Last(kept).end {
      assert Last(kept) in kept;
      TakesTheSameRange(cat, kept, x);
    } else if front != [] {
      LastStartIsKept(cat, front);
      assert forall z :: z in front ==> z.start <= Last(front).start by {
        StartsInOrder(front);
      }
    }
  }

  lemma StartsInOrder(ms: seq<Match>)
    requires InOrder(ms) && ms != []
    ensures forall z :: z in ms ==> z == Last(ms) || LongestFirst(z, Last(ms))
  {
    forall z | z in ms ensures z == Last(ms) || LongestFirst(z, Last(ms)) {
      var i :| 0 <= i < |ms| && ms[i] == z;
      assert i < |ms| - 1 ==> LongestFirst(ms[i], ms[|ms| - 1]);
    }
  }

  lemma MembersOf(ms: seq<Match>)
    requires ms != []
    ensures forall z :: z in ms <==> z in Front(ms) || z == Last(ms)
  {
    assert ms == Front(ms) + [Last(ms)];
  }

  lemma StandsStill(cat: Catalogue, ms: seq<Match>, t: Match)
    requires ms != [] && Stands(cat, t, Front(ms))
    requires Last(ms).start == t.start ==> Last(ms).end <= t.end
    requires Crosses(Last(ms), t) ==> cat.Rank(Last(ms).entityType) <= cat.Rank(t.entityType)
    ensures Stands(cat, t, ms)
  {
    MembersOf(ms);
  }

  lemma StandsAtOnce(cat: Catalogue, ms: seq<Match>)
    requires ms != [] && Longest(Last(ms), Front(ms)) && forall z :: z in Front(ms) ==> z.start <= Last(ms).start
    ensures Stands(cat, Last(ms), ms)
  {
    MembersOf(ms);
  }

  lemma {:induction false} SurvivorsStand(cat: Catalogue, ms: seq<Match>)
    requires InOrder(ms) && KeepsStarts(ms, Collapse(cat, ms))
    ensures forall t :: t in Collapse(cat, ms) ==> Stands(cat, t, ms)
  {
    if ms == [] {
    } else {
      PrefixIsReady(ms, |ms| - 1);
      StartsWereKept(cat, ms);
      SurvivorsStand(cat, Front(ms));
      CollapseKeeps(cat, Front(ms));
      StandingStep(cat, ms, Collapse(cat, Front(ms)));
    }
  }

  lemma StandingStep(cat: Catalogue, ms: seq<Match>, kept: seq<Match>)
    requires InOrder(ms) && ms != [] && kept == Collapse(cat, Front(ms)) && Separate(kept)
    requires KeepsStarts(ms, CollapseNext(cat, kept, Last(ms)))
    requires forall t :: t in kept ==> Stands(cat, t, Front(ms))
    ensures forall t :: t in CollapseNext(cat, kept, Last(ms)) ==> Stands(cat, t, ms)
  {
    forall t | t in CollapseNext(cat, kept, Last(ms)) ensures Stands(cat, t, ms) {
      if t in kept {
        OldStands(cat, ms, kept, t);
      } else {
        NewStands(cat, ms, kept);
      }
    }
  }

  lemma OldStands(cat: Catalogue, ms: seq<Match>, kept: seq<Match>, t: Match)
    requires InOrder(ms) && ms != [] && kept == Collapse(cat, Front(ms)) && Separate(kept)
    requires t in kept && t in CollapseNext(cat, kept, Last(ms)) && Stands(cat, t, Front(ms))
    ensures Stands(cat, t, ms)
  {
    StartsBefore(cat, ms, |ms| - 1);
    assert Last(kept) in kept;
    OldTileStands(cat, kept, t, Last(ms));
    StandsStill(cat, ms, t);
  }

  lemma NewStands(cat: Catalogue, ms: seq<Match>, kept: seq<Match>)
    requires InOrder(ms) && ms != [] && kept == Collapse(cat, Front(ms)) && Separate(kept)
    requires KeepsStarts(ms, CollapseNext(cat, kept, Last(ms)))
    requires forall t :: t in kept ==> Stands(cat, t, Front(ms))
    requires kept == [] || Last(kept).end <= Last(ms).start || Replaces(cat, Last(ms), Last(kept))
    ensures Stands(cat, Last(ms), ms)
  {
    if kept != [] {
      CollapseMembers(cat, Front(ms));
      MembersOf(ms);
      assert Last(kept) in kept && Stands(cat, Last(kept), Front(ms));
    }
    NewTileStands(cat, ms, kept);
    FrontStartsEarlier(ms);
    StandsAtOnce(cat, ms);
  }

  lemma FrontStartsEarlier(ms: seq<Match>)
    requires InOrder(ms) && ms != []
    ensures forall z :: z in Front(ms) ==> LongestFirst(z, Last(ms))
  {
    forall z | z in Front(ms) ensures LongestFirst(z, Last(ms)) {
      var i :| 0 <= i < |ms| - 1 && ms[i] == z;
      assert LongestFirst(ms[i], ms[|ms| - 1]);
    }
  }

  // ----- Such a selection is never broken up -----

  ghost predicate HasRange(ms: seq<Match>, x: Match) {
    exists m :: m in ms && SameRange(m, x)
  }

  /** Some match has begun at `p` or later. */
  ghost predicate Begun(before: seq<Match>, p: int) {
    exists z :: z in before && p <= z.start
  }

  /** `kept` occupies the ranges of the tiles that have begun. */
  ghost predicate Laid(kept: seq<Match>, tiles: seq<Match>, before: seq<Match>) {
    && (forall y :: y in kept ==> HasRange(tiles, y))
    && (forall t :: t in tiles && Begun(before, t.start) ==> HasRange(kept, t))
  }

  /** No earlier match with the last range outranks the last accepted one. */
  ghost predicate LastIsBest(cat: Catalogue, kept: seq<Match>, before: seq<Match>) {
    kept != [] ==> forall z :: z in before && SameRange(z, Last(kept)) ==>
                     cat.Rank(z.entityType) <= cat.Rank(Last(kept).entityType)
  }

  lemma TileAt(tiles: seq<Match>, ms: seq<Match>, x: Match) returns (t: Match)
    requires KeepsCharacters(ms, tiles) && x in ms && x.start < x.end
    ensures t in tiles && t.start <= x.start < t.end
  {
    assert Detected(ms, x.start);
    t :| t in tiles && t.start <= x.start < t.end;
  }

  /** Two separate matches of which one begins no later than a point inside the other. */
  lemma EarlierOrSame(tiles: seq<Match>, t: Match, u: Match, p: int)
    requires Separate(tiles) && t in tiles && u in tiles && t.start <= p < t.end && u.start <= p
    ensures u == t || u.end <= t.start
  {
    var i :| 0 <= i < |tiles| && tiles[i] == t;
    var j :| 0 <= j < |tiles| && tiles[j] == u;
  }

  lemma TileIsLast(kept: seq<Match>, t: Match, x: Match)
    requires Separate(kept) && HasRange(kept, t) && LongestFirst(Last(kept), x) && x.start < t.end
    ensures SameRange(Last(kept), t)
  {
    var m :| m in kept && SameRange(m, t);
    assert kept == Front(kept) + [Last(kept)];
    if m in Front(kept) {
      FrontEndsEarlier(kept, m);
    }
  }

  /** Within a tile that is laid, a match changes nothing or takes over the same range with a higher rank. */
  lemma OnALaidTile(cat: Catalogue, kept: seq<Match>, before: seq<Match>, t: Match, x: Match)
    requires kept != [] && SameRange(Last(kept), t) && t.start <= x.start < t.end && x.start < x.end
    requires x.start == t.start ==> x.end <= t.end
    requires Crosses(x, t) ==> Matched(cat, before, t, cat.Rank(x.entityType))
    requires LastIsBest(cat, kept, before)
    ensures Replaces(cat, x, Last(kept)) ==>
              SameRange(x, t) && cat.Rank(x.entityType) > cat.Rank(Last(kept).entityType)
    ensures !Replaces(cat, x, Last(kept)) && SameRange(x, t) ==>
              cat.Rank(x.entityType) <= cat.Rank(Last(kept).entityType)
  {
    if Crosses(x, t) {
      var r :| r in before && SameRange(r, t) && cat.Rank(x.entityType) <= cat.Rank(r.entityType);
    }
  }

  lemma StaysBest(cat: Catalogue, kept: seq<Match>, before: seq<Match>, x: Match)
    requires kept != [] && x.start < Last(kept).end && LastIsBest(cat, kept, before)
    requires Replaces(cat, x, Last(kept)) ==>
               SameRange(x, Last(kept)) && cat.Rank(x.entityType) > cat.Rank(Last(kept).entityType)
    requires !Replaces(cat, x, Last(kept)) && SameRange(x, Last(kept)) ==>
               cat.Rank(x.entityType) <= cat.Rank(Last(kept).entityType)
    ensures LastIsBest(cat, CollapseNext(cat, kept, x), before + [x])
  {
  }

  /** The ranges of `kept` stay the same. */
  lemma SameRangesKept(cat: Catalogue, kept: seq<Match>, x: Match, y: Match)
    requires kept != [] && x.start < Last(kept).end
    requires Replaces(cat, x, Last(kept)) ==> SameRange(x, Last(kept))
    ensures HasRange(kept, y) <==> HasRange(CollapseNext(cat, kept, x), y)
  {
    var next := CollapseNext(cat, kept, x);
    assert kept == Front(kept) + [Last(kept)];
    if m :| m in kept && SameRange(m, y) {
      assert (if m == Last(kept) then Last(next) else m) in next;
    }
    if m :| m in next && SameRange(m, y) {
      assert (if m == Last(next) then Last(kept) else m) in kept;
    }
  }

  lemma StaysLaid(
    cat: Catalogue, kept: seq<Match>, tiles: seq<Match>, before: seq<Match>, t: Match, x: Match)
    requires Laid(kept, tiles, before) && Separate(tiles) && t in tiles && t.start <= x.start < t.end
    requires kept != [] && SameRange(Last(kept), t) && Last(kept) in before
    requires Replaces(cat, x, Last(kept)) ==> SameRange(x, Last(kept))
    ensures Laid(CollapseNext(cat, kept, x), tiles, before + [x])
  {
    var next := CollapseNext(cat, kept, x);
    forall y | y in next ensures HasRange(tiles, y) {
      assert HasRange(next, y);
      SameRangesKept(cat, kept, x, y);
      var m :| m in kept && SameRange(m, y);
      assert HasRange(tiles, m);
    }
    forall u | u in tiles && Begun(before + [x], u.start) ensures HasRange(next, u) {
      SameRangesKept(cat, kept, x, u);
      if u.start <= x.start {
        EarlierOrSame(tiles, t, u, x.start);
        assert Begun(before, u.start);
      }
    }
  }

  lemma StartsBehind(kept: seq<Match>, tiles: seq<Match>, t: Match)
    requires Separate(tiles) && t in tiles && kept != [] && HasRange(tiles, Last(kept)) && Last(kept).start < t.start
    ensures Last(kept).end <= t.start
  {
    var u :| u in tiles && SameRange(u, Last(kept));
    var i :| 0 <= i < |tiles| && tiles[i] == t;
    assert t.start < t.end;
    EarlierOrSame(tiles, t, u, t.start);
  }

  lemma AppendLays(kept: seq<Match>, tiles: seq<Match>, before: seq<Match>, t: Match, x: Match)
    requires Laid(kept, tiles, before) && Separate(tiles) && t in tiles && SameRange(x, t)
    requires forall u :: u in tiles && u.start < t.start ==> Begun(before, u.start)
    ensures Laid(kept + [x], tiles, before + [x])
  {
    var next := kept + [x];
    forall y | y in next ensures HasRange(tiles, y) {
      if y !in kept {
        assert SameRange(t, x);
      }
    }
    forall u | u in tiles && Begun(before + [x], u.start) ensures HasRange(next, u) {
      if Begun(before, u.start) {
        var m :| m in kept && SameRange(m, u);
        assert m in next;
      } else {
        var z :| z in before + [x] && u.start <= z.start;
        assert z == x;
        assert u.start == t.start;
        OneTilePerStart(tiles, t, u);
        assert x in next;
      }
    }
  }

  lemma OneTilePerStart(tiles: seq<Match>, t: Match, u: Match)
    requires Separate(tiles) && t in tiles && u in tiles && t.start == u.start
    ensures t == u
  {
    var i :| 0 <= i < |tiles| && tiles[i] == t;
    var j :| 0 <= j < |tiles| && tiles[j] == u;
  }

  lemma AppendIsBest(cat: Catalogue, kept: seq<Match>, before: seq<Match>, x: Match)
    requires forall z :: z in before ==> z.start < x.start
    ensures LastIsBest(cat, kept + [x], before + [x])
  {
    assert Last(kept + [x]) == x;
  }

  /** A match in front of which no tile is open is appended. */
  lemma NextTileIsAppended(cat: Catalogue, kept: seq<Match>, tiles: seq<Match>, t: Match, x: Match)
    requires Separate(tiles) && t in tiles && x.start == t.start
    requires forall y :: y in kept ==> HasRange(tiles, y) && y.start < t.start
    ensures CollapseNext(cat, kept, x) == kept + [x]
  {
    if kept != [] {
      assert Last(kept) in kept;
      StartsBehind(kept, tiles, t);
    }
  }

  // ----- The step and the fold -----

  /** No tile that begins before `ms[k]` is still to come. */
  lemma EarlierTilesHaveBegun(tiles: seq<Match>, ms: seq<Match>, k: nat, u: Match)
    requires InOrder(ms) && k < |ms| && u in ms && u.start < ms[k].start
    ensures Begun(ms[..k], u.start)
  {
    var i :| 0 <= i < |ms| && ms[i] == u;
    assert k <= i ==> k == i || LongestFirst(ms[k], ms[i]);
    assert ms[..k][i] == u;
  }

  /** A tile that is not laid begins with the match that opens it. */
  lemma OpensTheTile(ms: seq<Match>, k: nat, t: Match)
    requires InOrder(ms) && k < |ms| && t in ms && Longest(t, ms)
    requires !Begun(ms[..k], t.start) && t.start <= ms[k].start
    ensures SameRange(ms[k], t) && forall z :: z in ms[..k] ==> z.start < t.start
  {
    var j :| 0 <= j < |ms| && ms[j] == t;
    assert forall i :: 0 <= i < k ==> ms[i] in ms[..k];
    assert k <= j && (j == k || LongestFirst(ms[k], ms[j]));
    assert ms[k] in ms;
  }

  /** What matches the range of `t` arrives before anything that crosses its end. */
  lemma MatchedEarly(cat: Catalogue, ms: seq<Match>, k: nat, t: Match)
    requires InOrder(ms) && k < |ms| && Undefeated(cat, t, ms)
    ensures Crosses(ms[k], t) ==> Matched(cat, ms[..k], t, cat.Rank(ms[k].entityType))
  {
    assert ms[k] in ms;
    if Crosses(ms[k], t) {
      var r :| r in ms && SameRange(r, t) && cat.Rank(ms[k].entityType) <= cat.Rank(r.entityType);
      var i :| 0 <= i < |ms| && ms[i] == r;
      assert k <= i ==> k == i || LongestFirst(ms[k], ms[i]);
      assert ms[..k][i] == r;
    }
  }

  ghost predicate LaidBy(cat: Catalogue, tiles: seq<Match>, before: seq<Match>) {
    Laid(Collapse(cat, before), tiles, before) && LastIsBest(cat, Collapse(cat, before), before)
  }

  lemma LayingStep(cat: Catalogue, tiles: seq<Match>, ms: seq<Match>, k: nat)
    requires InOrder(ms) && Tiling(cat, tiles, ms) && k < |ms| && LaidBy(cat, tiles, ms[..k])
    ensures LaidBy(cat, tiles, ms[..k] + [ms[k]])
  {
    assert ms[k] in ms;
    var t := TileAt(tiles, ms, ms[k]);
    CollapseAppend(cat, ms[..k], ms[k]);
    if Begun(ms[..k], t.start) {
      StepOnTile(cat, tiles, ms, k, t);
    } else {
      StepToNextTile(cat, tiles, ms, k, t);
    }
  }

  lemma StepToNextTile(cat: Catalogue, tiles: seq<Match>, ms: seq<Match>, k: nat, t: Match)
    requires InOrder(ms) && Separate(tiles) && k < |ms| && LaidBy(cat, tiles, ms[..k])
    requires t in tiles && t in ms && Longest(t, ms) && (forall u :: u in tiles ==> u in ms)
    requires t.start <= ms[k].start && !Begun(ms[..k], t.start)
    ensures var kept := CollapseNext(cat, Collapse(cat, ms[..k]), ms[k]);
            Laid(kept, tiles, ms[..k] + [ms[k]]) && LastIsBest(cat, kept, ms[..k] + [ms[k]])
  {
    var before, x := ms[..k], ms[k];
    CollapseMembers(cat, before);
    OpensTheTile(ms, k, t);
    forall u | u in tiles && u.start < t.start ensures Begun(before, u.start) {
      EarlierTilesHaveBegun(tiles, ms, k, u);
    }
    NextTileIsAppended(cat, Collapse(cat, before), tiles, t, x);
    AppendLays(Collapse(cat, before), tiles, before, t, x);
    AppendIsBest(cat, Collapse(cat, before), before, x);
  }

  lemma StepOnTile(cat: Catalogue, tiles: seq<Match>, ms: seq<Match>, k: nat, t: Match)
    requires InOrder(ms) && Separate(tiles) && k < |ms| && LaidBy(cat, tiles, ms[..k])
    requires t in tiles && Longest(t, ms) && Undefeated(cat, t, ms)
    requires t.start <= ms[k].start < t.end && Begun(ms[..k], t.start)
    ensures var kept := CollapseNext(cat, Collapse(cat, ms[..k]), ms[k]);
            Laid(kept, tiles, ms[..k] + [ms[k]]) && LastIsBest(cat, kept, ms[..k] + [ms[k]])
  {
    var before, x := ms[..k], ms[k];
    var kept := Collapse(cat, before);
    KeptSoFar(cat, ms, k);
    assert HasRange(kept, t) && x in ms;
    TileIsLast(kept, t, x);
    MatchedEarly(cat, ms, k, t);
    OnALaidTile(cat, kept, before, t, x);
    StaysBest(cat, kept, before, x);
    StaysLaid(cat, kept, tiles, before, t, x);
  }

  lemma KeptSoFar(cat: Catalogue, ms: seq<Match>, k: nat)
    requires InOrder(ms) && k < |ms|
    ensures var kept := Collapse(cat, ms[..k]);
            && Separate(kept) && ms[k].start < ms[k].end
            && (kept != [] ==> Last(kept) in ms[..k] && LongestFirst(Last(kept), ms[k]))
  {
    PrefixIsReady(ms, k);
    CollapseKeeps(cat, ms[..k]);
    CollapseMembers(cat, ms[..k]);
    StartsBefore(cat, ms, k);
    var kept := Collapse(cat, ms[..k]);
    assert kept != [] ==> Last(kept) in kept;
  }

  lemma {:induction false} TilesAreLaid(cat: Catalogue, tiles: seq<Match>, ms: seq<Match>, k: nat)
    requires InOrder(ms) && Tiling(cat, tiles, ms) && k <= |ms|
    ensures LaidBy(cat, tiles, ms[..k])
  {
    if k == 0 {
      NothingIsLaid(cat, tiles);
      assert ms[..0] == [];
    } else {
      TilesAreLaid(cat, tiles, ms, k - 1);
      LayingStep(cat, tiles, ms, k - 1);
      NextPrefixIsLaid(cat, tiles, ms, k - 1);
    }
  }

  lemma NothingIsLaid(cat: Catalogue, tiles: seq<Match>)
    ensures LaidBy(cat, tiles, [])
  {
  }

  lemma NextPrefixIsLaid(cat: Catalogue, tiles: seq<Match>, ms: seq<Match>, k: nat)
    requires k < |ms| && LaidBy(cat, tiles, ms[..k] + [ms[k]])
    ensures LaidBy(cat, tiles, ms[..k + 1])
  {
    assert ms[..k] + [ms[k]] == ms[..k + 1];
  }

  lemma LaidTilesKeepAll(cat: Catalogue, tiles: seq<Match>, ms: seq<Match>)
    requires InOrder(ms) && Tiling(cat, tiles, ms)
    ensures KeepsCharacters(ms, Collapse(cat, ms))
  {
    var kept := Collapse(cat, ms);
    TilesAreLaid(cat, tiles, ms, |ms|);
    assert ms[..|ms|] == ms;
    forall p | Detected(ms, p) ensures Detected(kept, p) {
      var t :| t in tiles && t.start <= p < t.end;
      assert Begun(ms, t.start);
      var m :| m in kept && SameRange(m, t);
    }
  }

  /**
   No detected character is lost exactly when some separate inputs report every detected character, each is longest
   where it begins, and none is outranked by what crosses its end.
   */
  lemma NothingIsLostIff(cat: Catalogue, results: seq<Match>)
    requires AllNonEmpty(results)
    ensures KeepsCharacters(results, Collapse(cat, Sort(results, LongestFirst)))
       <==> exists tiles :: Tiling(cat, tiles, results)
  {
    var ms := Sort(results, LongestFirst);
    var kept := Collapse(cat, ms);
    OrderedIsReady(results);
    SortKeepsMembers(results, LongestFirst);
    if tiles :| Tiling(cat, tiles, results) {
      SameMembersSameTiling(cat, tiles, results, ms);
      LaidTilesKeepAll(cat, tiles, ms);
      SameDetections(results, ms);
    }
    if KeepsCharacters(results, kept) {
      SameDetections(ms, results);
      SurvivorsTile(cat, ms);
      SameMembersSameTiling(cat, kept, ms, results);
    }
  }

  lemma SurvivorsTile(cat: Catalogue, ms: seq<Match>)
    requires InOrder(ms) && KeepsCharacters(ms, Collapse(cat, ms))
    ensures Tiling(cat, Collapse(cat, ms), ms)
  {
    var kept := Collapse(cat, ms);
    CollapseKeeps(cat, ms);
    CollapseMembers(cat, ms);
    forall z | z in ms ensures Detected(kept, z.start) {
      var i :| 0 <= i < |ms| && ms[i] == z;
      assert Detected(ms, z.start);
    }
    SurvivorsStand(cat, ms);
    forall t | t in kept ensures Longest(t, ms) && Undefeated(cat, t, ms) {
      assert Stands(cat, t, ms) && SameRange(t, t);
    }
  }

  lemma SameDetections(a: seq<Match>, b: seq<Match>)
    requires forall m :: m in a ==> m in b
    ensures forall p :: Detected(a, p) ==> Detected(b, p)
  {
  }

  lemma SameMembersSameTiling(cat: Catalogue, tiles: seq<Match>, a: seq<Match>, b: seq<Match>)
    requires (forall m :: m in a <==> m in b) && Tiling(cat, tiles, a)
    ensures Tiling(cat, tiles, b)
  {
    SameDetections(b, a);
    forall t | t in tiles ensures Undefeated(cat, t, b) {
      forall z | z in b && Crosses(z, t) ensures Matched(cat, b, t, cat.Rank(z.entityType)) {
        assert Matched(cat, a, t, cat.Rank(z.entityType));
      }
    }
  }

  /** Unlike arbitration, a partial overlap can leave detected characters in no surviving span. */
  lemma PartialOverlapLosesCharacters(cat: Catalogue, a: string, b: string)
    requires cat.Rank(a) < cat.Rank(b)
    ensures Collapse(cat, Sort([Match(a, 0, 5, 1.0), Match(b, 3, 8, 1.0)], LongestFirst)) == [Match(b, 3, 8, 1.0)]
  {
    var x, y := Match(a, 0, 5, 1.0), Match(b, 3, 8, 1.0);
    SortedIsFixed([x, y], LongestFirst);
    assert Front([x, y]) == [x] && Front([x]) == [];
    assert Collapse(cat, [x]) == [x];
  }
}
