/**
 Which span's type and flags survive in an output of `SpanArbiter.MergeWith`.

 Every output is the left fold `Resolve` over exactly the inputs that lie inside it, in arrival order.  The
 lemmas then say what that fold means: where the type comes from, when it is a most specific one, and when
 the result is protected.
 */
module SpanWinner {
  import opened Catalogue
  import opened Intervals
  import opened Options
  import opened Sorting
  import opened SpanArbiter

  function Resolve(cat: Catalogue, cluster: seq<Span>): Span
    requires cluster != []
  {
    if |cluster| == 1 then cluster[0] else Union(cat, Last(cluster), Resolve(cat, Front(cluster)))
  }

  function Within(o: Range): Span -> bool {
    (x: Span) => o.start <= x.start && x.end <= o.end
  }

  /** The inputs that an output stands for, in arrival order. */
  function Members(spans: seq<Span>, o: Range): seq<Span> {
    Filter(spans, Within(o))
  }

  // ----- Every output resolves its own members -----

  ghost predicate ResolvesMembers(cat: Catalogue, spans: seq<Span>, out: seq<Span>) {
    forall o :: o in out ==> Resolves(cat, spans, o)
  }

  ghost predicate Resolves(cat: Catalogue, spans: seq<Span>, o: Span) {
    var m := Members(spans, RangeOf(o));
    m != [] && o == Resolve(cat, m)
  }

  lemma {:induction false} SweepResolves(cat: Catalogue, spans: seq<Span>)
    requires NonEmpty(Bounds(spans)) && SortedByStart(Bounds(spans))
    ensures ResolvesMembers(cat, spans, SweepSpans(cat, spans))
  {
    if spans == [] {
    } else {
      var before, x := Front(spans), Last(spans);
      FrontIsReady(cat, spans);
      SweepResolves(cat, before);
      assert spans == before + [x];
      AbsorbResolves(cat, before, SweepSpans(cat, before), x);
    }
  }

  lemma FrontIsReady(cat: Catalogue, spans: seq<Span>)
    requires spans != [] && NonEmpty(Bounds(spans)) && SortedByStart(Bounds(spans))
    ensures var before, out := Front(spans), SweepSpans(cat, Front(spans));
            && NonEmpty(Bounds(before)) && SortedByStart(Bounds(before))
            && Separated(Bounds(out)) && HoldsAll(Bounds(before), Bounds(out))
            && Last(spans).start < Last(spans).end
            && forall i :: 0 <= i < |out| ==> out[i].start <= Last(spans).start
  {
    var b := Bounds(spans);
    assert Front(b) == Bounds(Front(spans));
    FrontIsSorted(b);
    PrefixIsReady(cat, spans, |spans| - 1);
    SweepKeepsBounds(cat, Front(spans));
    SweepCovers(Front(b));
  }

  lemma AbsorbResolves(cat: Catalogue, before: seq<Span>, out: seq<Span>, x: Span)
    requires Separated(Bounds(out)) && HoldsAll(Bounds(before), Bounds(out)) && NonEmpty(Bounds(before))
    requires x.start < x.end
    requires forall i :: 0 <= i < |out| ==> out[i].start <= x.start
    requires ResolvesMembers(cat, before, out)
    ensures ResolvesMembers(cat, before + [x], AbsorbSpan(cat, out, x))
  {
    forall i | 0 <= i < |out| && (i < |out| - 1 || out[i].end <= x.start)
      ensures Resolves(cat, before + [x], out[i])
    {
      KeptMembers(before, out, x, i);
      assert out[i] in out;
    }
    if out == [] || Last(out).end <= x.start {
      FreshMembers(before, out, x);
    } else {
      assert Last(out) in out;
      WidenedMembers(cat, before, out, x);
    }
    var out' := AbsorbSpan(cat, out, x);
    forall o | o in out' ensures Resolves(cat, before + [x], o) {
      var i :| 0 <= i < |out'| && out'[i] == o;
    }
  }

  /** An input before `x` lies in `o` exactly when it lies in `o'`. */
  lemma SameMembersOf(spans: seq<Span>, o: Range, o': Range)
    requires forall y :: y in spans ==> (Inside(RangeOf(y), o) <==> Inside(RangeOf(y), o'))
    ensures Members(spans, o) == Members(spans, o')
  {
    FilterAgree(spans, Within(o), Within(o'));
  }

  lemma MembersAppend(spans: seq<Span>, x: Span, o: Range)
    ensures Members(spans + [x], o) == Members(spans, o) + (if Inside(RangeOf(x), o) then [x] else [])
  {
    FilterAppend(spans, [x], Within(o));
  }

  lemma MemberBounds(spans: seq<Span>, y: Span)
    requires y in spans
    ensures RangeOf(y) in Bounds(spans)
  {
    var i :| 0 <= i < |spans| && spans[i] == y;
    assert Bounds(spans)[i] == RangeOf(y);
  }

  lemma KeptMembers(before: seq<Span>, out: seq<Span>, x: Span, i: nat)
    requires Separated(Bounds(out)) && x.start < x.end
    requires i < |out| && (i < |out| - 1 || out[i].end <= x.start)
    requires forall j :: 0 <= j < |out| ==> out[j].start <= x.start
    ensures Members(before + [x], RangeOf(out[i])) == Members(before, RangeOf(out[i]))
  {
    assert i < |out| - 1 ==> Bounds(out)[i].end <= Bounds(out)[|out| - 1].start;
    MembersAppend(before, x, RangeOf(out[i]));
  }

  lemma FreshMembers(before: seq<Span>, out: seq<Span>, x: Span)
    requires Separated(Bounds(out)) && HoldsAll(Bounds(before), Bounds(out)) && NonEmpty(Bounds(before))
    requires out == [] || Last(out).end <= x.start
    ensures Members(before + [x], RangeOf(x)) == [x]
  {
    forall y | y in before ensures y.start < x.start {
      HolderOf(before, out, y);
    }
    FilterNone(before, Within(RangeOf(x)));
    MembersAppend(before, x, RangeOf(x));
  }

  lemma HolderOf(before: seq<Span>, out: seq<Span>, y: Span)
    requires Separated(Bounds(out)) && HoldsAll(Bounds(before), Bounds(out)) && NonEmpty(Bounds(before)) && y in before
    ensures out != [] && y.start < y.end <= Last(out).end
    ensures Last(out).start < y.end ==> Inside(RangeOf(y), RangeOf(Last(out)))
  {
    MemberBounds(before, y);
    HeldByLast(Bounds(out), RangeOf(y));
  }

  lemma WidenedMembers(cat: Catalogue, before: seq<Span>, out: seq<Span>, x: Span)
    requires Separated(Bounds(out)) && HoldsAll(Bounds(before), Bounds(out)) && NonEmpty(Bounds(before))
    requires out != [] && Last(out).start <= x.start < Last(out).end && x.start < x.end
    requires var m := Members(before, RangeOf(Last(out))); m != [] && Last(out) == Resolve(cat, m)
    ensures var u := Union(cat, x, Last(out));
            var m := Members(before + [x], RangeOf(u)); m != [] && u == Resolve(cat, m)
  {
    var last := Last(out);
    var u := Union(cat, x, last);
    UnionBounds(cat, x, last);
    forall y | y in before ensures Inside(RangeOf(y), RangeOf(last)) <==> Inside(RangeOf(y), RangeOf(u)) {
      HolderOf(before, out, y);
    }
    SameMembersOf(before, RangeOf(last), RangeOf(u));
    MembersAppend(before, x, RangeOf(u));
    var m := Members(before, RangeOf(last));
    assert Front(m + [x]) == m && Last(m + [x]) == x;
  }

  /** Stated for the entry point: each output is the resolution of the inputs inside it. */
  lemma OutputsResolveTheirMembers(
    cat: Catalogue, regex: seq<Span>, ner: seq<Span>, additional: seq<seq<Span>>, o: Span)
    requires AllNonEmpty(Inputs(regex, ner, additional))
    requires o in Arbitrated(cat, regex, ner, additional)
    ensures var m := Members(Ordered(cat, regex, ner, additional), RangeOf(o));
            m != [] && o == Resolve(cat, m).(tag := Untagged)
  {
    var ordered := Ordered(cat, regex, ner, additional);
    OrderedIsUsable(cat, regex, ner, additional);
    SweepResolves(cat, ordered);
    var swept := SweepSpans(cat, ordered);
    var i :| 0 <= i < |swept| && Untag(swept)[i] == o;
    assert swept[i] in swept && RangeOf(swept[i]) == RangeOf(o);
  }

  // ----- Bounds of a cluster -----

  ghost predicate InArrivalOrder(c: seq<Span>) {
    forall i, j :: 0 <= i < j < |c| ==> c[i].start <= c[j].start
  }

  /** `c[k]` repeats the union of everything that arrived before it: an exact overlap step. */
  ghost predicate ExactStep(c: seq<Span>, k: nat)
    requires k < |c|
  {
    && (exists j :: 0 <= j < k && SameBounds(c[j], c[k]))
    && (forall j :: 0 <= j < k ==> c[k].start <= c[j].start && c[j].end <= c[k].end)
  }

  ghost predicate SameBounds(x: Span, y: Span) {
    x.start == y.start && x.end == y.end
  }

  lemma {:induction false} ResolveBounds(cat: Catalogue, c: seq<Span>)
    requires c != [] && InArrivalOrder(c)
    ensures Resolve(cat, c).start == c[0].start
    ensures forall i :: 0 <= i < |c| ==> c[i].end <= Resolve(cat, c).end
    ensures exists i :: 0 <= i < |c| && c[i].end == Resolve(cat, c).end
  {
    if |c| > 1 {
      ResolveBounds(cat, Front(c));
      UnionBounds(cat, Last(c), Resolve(cat, Front(c)));
      var i :| 0 <= i < |Front(c)| && Front(c)[i].end == Resolve(cat, Front(c)).end;
      assert c[i].end == Resolve(cat, Front(c)).end && c[|c| - 1] == Last(c);
    }
  }

  /** The program's test for an exact overlap, in terms of the inputs alone. */
  lemma ExactStepMeansEqualBounds(cat: Catalogue, c: seq<Span>, k: nat)
    requires 0 < k < |c| && InArrivalOrder(c) && AllNonEmpty(c)
    ensures OverlapType(c[k], Resolve(cat, c[..k])) == Overlap.Exact <==> ExactStep(c, k)
  {
    var front := c[..k];
    ResolveBounds(cat, front);
    var i :| 0 <= i < |front| && front[i].end == Resolve(cat, front).end;
    assert c[i] == front[i];
    assert forall j :: 0 <= j < k ==> c[j] == front[j];
    if ExactStep(c, k) {
      var j :| 0 <= j < k && SameBounds(c[j], c[k]);
      assert c[0].start <= c[j].start;
    } else if OverlapType(c[k], Resolve(cat, front)) == Overlap.Exact {
      assert c[k].start == c[0].start && c[0].start <= c[i].start <= c[k].start;
      assert SameBounds(c[i], c[k]);
    }
  }

  // ----- Where the type comes from -----

  /** The fields that a winner hands on. */
  ghost predicate SameMetadata(x: Span, y: Span) {
    x.entityType == y.entityType && x.score == y.score && x.source == y.source && x.tag == y.tag
  }

  lemma {:induction false} TypeComesFromAMember(cat: Catalogue, c: seq<Span>)
    requires c != []
    ensures exists i :: 0 <= i < |c| && SameMetadata(Resolve(cat, c), c[i])
  {
    if |c| == 1 {
      assert SameMetadata(Resolve(cat, c), c[0]);
    } else {
      TypeComesFromAMember(cat, Front(c));
      var i :| 0 <= i < |Front(c)| && SameMetadata(Resolve(cat, Front(c)), Front(c)[i]);
      assert c[i] == Front(c)[i] && c[|c| - 1] == Last(c);
      assert SameMetadata(Resolve(cat, c), c[i]) || SameMetadata(Resolve(cat, c), c[|c| - 1]);
    }
  }

  ghost predicate MostSpecific(cat: Catalogue, c: seq<Span>, rank: nat) {
    forall i :: 0 <= i < |c| ==> cat.Rank(c[i].entityType) <= rank
  }

  /** Step `k` does not put a less specific regex span in place of the winner so far. */
  ghost predicate NotOverwritten(cat: Catalogue, c: seq<Span>, top: nat, k: nat)
    requires k < |c|
  {
    ExactStep(c, k) && c[k].tag == RegexList ==> cat.Rank(c[k].entityType) == top
  }

  /**
   `c[m]` has rank `top`, was not thrown away on arrival by an exact overlap, and no exact overlap before step
   `n` put a less specific regex span in its place.
   */
  ghost predicate EnduresUntil(cat: Catalogue, c: seq<Span>, top: nat, m: nat, n: nat)
    requires m < n <= |c|
  {
    && cat.Rank(c[m].entityType) == top
    && (ExactStep(c, m) ==> c[m].tag == RegexList)
    && forall k :: m < k < n ==> NotOverwritten(cat, c, top, k)
  }

  ghost predicate Endures(cat: Catalogue, c: seq<Span>, top: nat, m: nat)
    requires m < |c|
  {
    EnduresUntil(cat, c, top, m, |c|)
  }

  lemma {:induction false} WinnerIsMostSpecificIff(cat: Catalogue, c: seq<Span>, top: nat, n: nat)
    requires 0 < n <= |c| && InArrivalOrder(c) && AllNonEmpty(c) && MostSpecific(cat, c, top)
    ensures cat.Rank(Resolve(cat, c[..n]).entityType) == top
       <==> exists m :: 0 <= m < n && EnduresUntil(cat, c, top, m, n)
  {
    if n == 1 {
      assert EnduresUntil(cat, c, top, 0, 1) <==> cat.Rank(c[0].entityType) == top;
    } else {
      var k := n - 1;
      assert Front(c[..n]) == c[..k] && Last(c[..n]) == c[k];
      WinnerIsMostSpecificIff(cat, c, top, k);
      ExactStepMeansEqualBounds(cat, c, k);
      RankStep(cat, c[k], Resolve(cat, c[..k]));
      RankIsBounded(cat, c, top, k);
      EnduresStep(cat, c, top, k, n);
    }
  }

  lemma RankIsBounded(cat: Catalogue, c: seq<Span>, top: nat, k: nat)
    requires 0 < k <= |c| && MostSpecific(cat, c, top)
    ensures cat.Rank(Resolve(cat, c[..k]).entityType) <= top
  {
    TypeComesFromAMember(cat, c[..k]);
    var i :| 0 <= i < k && SameMetadata(Resolve(cat, c[..k]), c[..k][i]);
    assert c[..k][i] == c[i];
  }

  /** The winners so far go on, if nothing overwrites them, and the newcomer may join them. */
  lemma EnduresStep(cat: Catalogue, c: seq<Span>, top: nat, k: nat, n: nat)
    requires 0 < k && n == k + 1 <= |c|
    ensures (exists m :: 0 <= m < n && EnduresUntil(cat, c, top, m, n))
       <==> || EnduresUntil(cat, c, top, k, n)
            || (NotOverwritten(cat, c, top, k) && exists m :: 0 <= m < k && EnduresUntil(cat, c, top, m, k))
  {
    forall m | 0 <= m < k
      ensures EnduresUntil(cat, c, top, m, n) <==>
              EnduresUntil(cat, c, top, m, k) && NotOverwritten(cat, c, top, k)
    {
    }
  }

  /** The exact condition on a cluster for its winner to be a most specific member. */
  lemma ClusterIsMostSpecificIff(cat: Catalogue, c: seq<Span>, top: nat)
    requires c != [] && InArrivalOrder(c) && AllNonEmpty(c) && MostSpecific(cat, c, top)
    ensures cat.Rank(Resolve(cat, c).entityType) == top <==> exists m :: 0 <= m < |c| && Endures(cat, c, top, m)
  {
    WinnerIsMostSpecificIff(cat, c, top, |c|);
    assert c[..|c|] == c;
    assert forall m :: 0 <= m < |c| ==> (Endures(cat, c, top, m) <==> EnduresUntil(cat, c, top, m, |c|));
  }

  lemma RankStep(cat: Catalogue, x: Span, acc: Span)
    ensures var r := cat.Rank(Union(cat, x, acc).entityType);
            if OverlapType(x, acc) == Overlap.Exact
            then r == cat.Rank(if x.tag == RegexList then x.entityType else acc.entityType)
            else r == Max(cat.Rank(x.entityType), cat.Rank(acc.entityType))
  {
  }

  // ----- What a caller can rely on -----

  ghost predicate NoRepeatedBounds(c: seq<Span>) {
    forall i, j :: 0 <= i < j < |c| ==> !SameBounds(c[i], c[j])
  }

  /** The highest specificity in a non-empty list. */
  function TopRank(cat: Catalogue, c: seq<Span>): (top: nat)
    ensures MostSpecific(cat, c, top)
    ensures c != [] ==> exists i :: 0 <= i < |c| && cat.Rank(c[i].entityType) == top
  {
    if c == [] then 0
    else
      var rest := TopRank(cat, Front(c));
      var r := cat.Rank(Last(c).entityType);
      assert c[|c| - 1] == Last(c) && forall i :: 0 <= i < |c| - 1 ==> c[i] == Front(c)[i];
      if r >= rest then r else rest
  }

  /** Without two identical ranges in a cluster, the most specific type always wins. */
  lemma DistinctBoundsKeepTheMostSpecific(cat: Catalogue, c: seq<Span>)
    requires c != [] && InArrivalOrder(c) && AllNonEmpty(c) && NoRepeatedBounds(c)
    ensures cat.Rank(Resolve(cat, c).entityType) == TopRank(cat, c)
  {
    var top := TopRank(cat, c);
    var m :| 0 <= m < |c| && cat.Rank(c[m].entityType) == top;
    ClusterIsMostSpecificIff(cat, c, top);
    assert Endures(cat, c, top, m);
  }

  /** Among spans with one and the same range, the regex detector wins whenever it reported the range. */
  lemma {:induction false} IdenticalBoundsPreferRegex(cat: Catalogue, c: seq<Span>)
    requires c != [] && AllNonEmpty(c)
    requires forall i :: 0 <= i < |c| ==> SameBounds(c[i], c[0])
    ensures SameBounds(Resolve(cat, c), c[0])
    ensures Resolve(cat, c).tag == RegexList <==> exists i :: 0 <= i < |c| && c[i].tag == RegexList
  {
    if |c| > 1 {
      IdenticalBoundsPreferRegex(cat, Front(c));
      assert forall i :: 0 <= i < |c| - 1 ==> c[i] == Front(c)[i];
      assert c[|c| - 1] == Last(c);
    }
  }

  /** Protection is inherited from every absorbed span. */
  lemma {:induction false} ProtectedIffAMemberIs(cat: Catalogue, c: seq<Span>)
    requires c != []
    requires forall i :: 0 <= i < |c| ==> c[i].isProtected == c[i].irreversible
    ensures Resolve(cat, c).isProtected == Resolve(cat, c).irreversible
    ensures Resolve(cat, c).isProtected <==> exists i :: 0 <= i < |c| && c[i].isProtected
  {
    if |c| > 1 {
      ProtectedIffAMemberIs(cat, Front(c));
      assert forall i :: 0 <= i < |c| - 1 ==> c[i] == Front(c)[i];
      assert c[|c| - 1] == Last(c);
    }
  }

  lemma MembersAreOrdered(cat: Catalogue, spans: seq<Span>, o: Range)
    requires NonEmpty(Bounds(spans)) && SortedBy(spans, StartThenScore)
    ensures var m := Members(spans, o); InArrivalOrder(m) && AllNonEmpty(m)
  {
    var m := Members(spans, o);
    FilterKeepsSorted(spans, Within(o), StartThenScore);
    FilterMembers(spans, Within(o));
    forall i, j | 0 <= i < j < |m| ensures m[i].start <= m[j].start {
      assert StartThenScore(m[i], m[j]);
    }
    forall i | 0 <= i < |m| ensures m[i].start < m[i].end {
      assert m[i] in spans;
      MemberBounds(spans, m[i]);
    }
  }

  /**
   The exact condition for "the most specific type wins" on an output `o`: some most specific input in it
   endures, that is, no identical range discards it on arrival or replaces it later.
   */
  lemma OutputIsMostSpecificIff(
    cat: Catalogue, regex: seq<Span>, ner: seq<Span>, additional: seq<seq<Span>>, o: Span)
    requires AllNonEmpty(Inputs(regex, ner, additional))
    requires o in Arbitrated(cat, regex, ner, additional)
    ensures var m := Members(Ordered(cat, regex, ner, additional), RangeOf(o));
            && (cat.Rank(o.entityType) == TopRank(cat, m)
                <==> exists k :: 0 <= k < |m| && Endures(cat, m, TopRank(cat, m), k))
            && (NoRepeatedBounds(m) ==> cat.Rank(o.entityType) == TopRank(cat, m))
  {
    var ordered := Ordered(cat, regex, ner, additional);
    var m := Members(ordered, RangeOf(o));
    OutputsResolveTheirMembers(cat, regex, ner, additional, o);
    OrderedIsUsable(cat, regex, ner, additional);
    SortSorts(Tagged(cat, regex, ner, additional), StartThenScore);
    MembersAreOrdered(cat, ordered, RangeOf(o));
    ClusterIsMostSpecificIff(cat, m, TopRank(cat, m));
    if NoRepeatedBounds(m) {
      DistinctBoundsKeepTheMostSpecific(cat, m);
    }
  }

  // ----- Which member wins -----

  /** An exact overlap by which the regex detector takes the cluster over. */
  ghost predicate TakesOver(c: seq<Span>, k: nat)
    requires k < |c|
  {
    ExactStep(c, k) && c[k].tag == RegexList
  }

  /** `e` is the last of the first `n` members to take over, or the first member if none does. */
  ghost predicate IsLastTakeover(c: seq<Span>, n: nat, e: nat)
    requires n <= |c|
  {
    && e < n && (e == 0 || TakesOver(c, e))
    && forall k :: e < k < n ==> !TakesOver(c, k)
  }

  /** The members that compete from `e` on: `e` itself and whatever does not repeat the range so far. */
  ghost predicate Competes(c: seq<Span>, e: nat, m: nat)
    requires m < |c|
  {
    m == e || (e < m && !ExactStep(c, m))
  }

  /** Of those that compete, `w` has the highest rank and arrived first among its equals. */
  ghost predicate IsFirstMostSpecific(cat: Catalogue, c: seq<Span>, n: nat, e: nat, w: nat)
    requires n <= |c|
  {
    && w < n && Competes(c, e, w)
    && forall m :: 0 <= m < n && Competes(c, e, m) ==> NotBefore(cat, c, m, w)
  }

  predicate NotBefore(cat: Catalogue, c: seq<Span>, m: nat, w: nat)
    requires m < |c| && w < |c|
  {
    var a, b := cat.Rank(c[m].entityType), cat.Rank(c[w].entityType);
    a <= b && (m < w ==> a < b)
  }

  ghost predicate WinsUntil(cat: Catalogue, c: seq<Span>, n: nat, e: nat, w: nat)
    requires n <= |c|
  {
    IsLastTakeover(c, n, e) && IsFirstMostSpecific(cat, c, n, e, w)
  }

  /** The fields a winner hands on; its own mark stays unless the union is irreversible. */
  ghost predicate HandsOn(winner: Span, u: Span) {
    SameMetadata(u, winner) && (!u.irreversible ==> u.reversible == winner.reversible)
  }

  lemma WinnerStep(cat: Catalogue, x: Span, acc: Span)
    ensures var u := Union(cat, x, acc);
            if OverlapType(x, acc) == Overlap.Exact then HandsOn(if x.tag == RegexList then x else acc, u)
            else HandsOn(if cat.Rank(acc.entityType) < cat.Rank(x.entityType) then x else acc, u)
  {
  }

  /** One member more, by cases: it takes over, it is discarded, or it competes. */
  lemma NextWinner(cat: Catalogue, c: seq<Span>, k: nat, e: nat, w: nat)
    requires k < |c| && WinsUntil(cat, c, k, e, w)
    ensures TakesOver(c, k) ==> WinsUntil(cat, c, k + 1, k, k)
    ensures ExactStep(c, k) && c[k].tag != RegexList ==> WinsUntil(cat, c, k + 1, e, w)
    ensures !ExactStep(c, k) ==>
              WinsUntil(cat, c, k + 1, e, if cat.Rank(c[w].entityType) < cat.Rank(c[k].entityType) then k else w)
  {
    var better := cat.Rank(c[w].entityType) < cat.Rank(c[k].entityType);
    forall m | 0 <= m < k && Competes(c, e, m) ensures NotBefore(cat, c, m, w) && (better ==> NotBefore(cat, c, m, k)) {
    }
  }

  lemma {:induction false} WinnerSoFar(cat: Catalogue, c: seq<Span>, n: nat) returns (e: nat, w: nat)
    requires 0 < n <= |c| && InArrivalOrder(c) && AllNonEmpty(c)
    ensures WinsUntil(cat, c, n, e, w) && HandsOn(c[w], Resolve(cat, c[..n]))
  {
    if n == 1 {
      e, w := 0, 0;
    } else {
      var k := n - 1;
      e, w := WinnerSoFar(cat, c, k);
      assert Front(c[..n]) == c[..k] && Last(c[..n]) == c[k];
      ExactStepMeansEqualBounds(cat, c, k);
      WinnerStep(cat, c[k], Resolve(cat, c[..k]));
      NextWinner(cat, c, k, e, w);
      if TakesOver(c, k) {
        e, w := k, k;
      } else if !ExactStep(c, k) && cat.Rank(c[w].entityType) < cat.Rank(c[k].entityType) {
        w := k;
      }
    }
  }

  lemma OnlyOneWinner(cat: Catalogue, c: seq<Span>, e: nat, w: nat, e': nat, w': nat)
    requires WinsUntil(cat, c, |c|, e, w) && WinsUntil(cat, c, |c|, e', w')
    ensures e == e' && w == w'
  {
    assert NotBefore(cat, c, w, w') && NotBefore(cat, c, w', w);
  }

  /**
   Which member hands on its type, score, source and list: of the last regex span that took the cluster over (or the
   first member) and of what came later without repeating the range so far, the first of highest rank.
   */
  lemma WinnerIs(cat: Catalogue, c: seq<Span>)
    requires c != [] && InArrivalOrder(c) && AllNonEmpty(c)
    ensures exists e: nat, w: nat :: WinsUntil(cat, c, |c|, e, w)
    ensures forall e: nat, w: nat :: WinsUntil(cat, c, |c|, e, w) ==> HandsOn(c[w], Resolve(cat, c))
  {
    var e, w := WinnerSoFar(cat, c, |c|);
    assert c[..|c|] == c;
    forall e': nat, w': nat | WinsUntil(cat, c, |c|, e', w') ensures HandsOn(c[w'], Resolve(cat, c)) {
      OnlyOneWinner(cat, c, e, w, e', w');
    }
  }

  /** Without identical ranges: the first member of the highest rank. */
  lemma FirstMostSpecificWins(cat: Catalogue, c: seq<Span>, w: nat)
    requires c != [] && InArrivalOrder(c) && AllNonEmpty(c) && NoRepeatedBounds(c)
    requires w < |c| && cat.Rank(c[w].entityType) == TopRank(cat, c)
    requires forall m :: 0 <= m < w ==> cat.Rank(c[m].entityType) < TopRank(cat, c)
    ensures HandsOn(c[w], Resolve(cat, c))
  {
    assert forall k :: 0 <= k < |c| ==> !ExactStep(c, k);
    assert IsLastTakeover(c, |c|, 0) && IsFirstMostSpecific(cat, c, |c|, 0, w);
    WinnerIs(cat, c);
  }

  /** A type without a rank never displaces another type, unless the regex detector reports the very same range. */
  lemma UnrankedNeverDisplaces(cat: Catalogue, x: Span, acc: Span)
    requires x.entityType !in cat.specificity && OverlapType(x, acc) != Overlap.Exact
    ensures HandsOn(acc, Union(cat, x, acc))
  {
  }

  lemma IrreversibleIsMarked(cat: Catalogue, c: seq<Span>)
    requires |c| > 1 && Resolve(cat, c).irreversible
    ensures Resolve(cat, c).reversible == Some(false)
  {
  }

  /**
   For an output `o`: the fields of the one winning input, and the mark of irreversibility if several inputs meet in
   it and one of them is irreversible.
   */
  lemma OutputHasTheWinnersFields(
    cat: Catalogue, regex: seq<Span>, ner: seq<Span>, additional: seq<seq<Span>>, o: Span)
    requires AllNonEmpty(Inputs(regex, ner, additional))
    requires o in Arbitrated(cat, regex, ner, additional)
    ensures var m := Members(Ordered(cat, regex, ner, additional), RangeOf(o));
            && (exists e: nat, w: nat :: WinsUntil(cat, m, |m|, e, w))
            && (forall e: nat, w: nat :: WinsUntil(cat, m, |m|, e, w) ==>
                  && o.entityType == m[w].entityType && o.score == m[w].score && o.source == m[w].source
                  && (!o.irreversible ==> o.reversible == m[w].reversible))
            && (o.irreversible && |m| > 1 ==> o.reversible == Some(false))
  {
    var ordered := Ordered(cat, regex, ner, additional);
    var m := Members(ordered, RangeOf(o));
    OutputsResolveTheirMembers(cat, regex, ner, additional, o);
    OrderedIsUsable(cat, regex, ner, additional);
    SortSorts(Tagged(cat, regex, ner, additional), StartThenScore);
    MembersAreOrdered(cat, ordered, RangeOf(o));
    WinnerIs(cat, m);
    forall e: nat, w: nat | WinsUntil(cat, m, |m|, e, w) ensures HandsOn(m[w], Resolve(cat, m)) {
    }
    if o.irreversible && |m| > 1 {
      IrreversibleIsMarked(cat, m);
    }
  }

  predicate StartAndScore(start: int, score: real, x: Span) {
    x.start == start && x.score == score
  }

  function WithStartAndScore(start: int, score: real): Span -> bool {
    (x: Span) => StartAndScore(start, score, x)
  }

  /**
   The order of arrival: by start, then the higher score first; spans that agree in both keep the order of the lists,
   regex first, and their order within a list.
   */
  lemma ArrivalOrder(
    cat: Catalogue, regex: seq<Span>, ner: seq<Span>, additional: seq<seq<Span>>, start: int, score: real)
    ensures var arrivals, same := Ordered(cat, regex, ner, additional), WithStartAndScore(start, score);
            && (forall i, j :: 0 <= i < j < |arrivals| ==>
                  || arrivals[i].start < arrivals[j].start
                  || (arrivals[i].start == arrivals[j].start && arrivals[i].score >= arrivals[j].score))
            && Filter(arrivals, same)
               == Filter(TagAll(cat, regex, RegexList), same) + Filter(TagAll(cat, ner, NerList), same)
                  + Filter(TagAll(cat, Flatten(additional), OtherList), same)
  {
    var tagged, same := Tagged(cat, regex, ner, additional), WithStartAndScore(start, score);
    var arrivals := Ordered(cat, regex, ner, additional);
    SortSorts(tagged, StartThenScore);
    assert forall i, j :: 0 <= i < j < |arrivals| ==> StartThenScore(arrivals[i], arrivals[j]);
    SameStartAndScoreStay(tagged, start, score);
    FilterAppend(TagAll(cat, regex, RegexList), TagAll(cat, ner, NerList), same);
    FilterAppend(TagAll(cat, regex, RegexList) + TagAll(cat, ner, NerList), TagAll(cat, Flatten(additional), OtherList), same);
  }

  lemma SameStartAndScoreStay(spans: seq<Span>, start: int, score: real)
    ensures Filter(Sort(spans, StartThenScore), WithStartAndScore(start, score))
         == Filter(spans, WithStartAndScore(start, score))
  {
    var y := Span("", start, start, score, "", false, false, None, Untagged);
    SortIsStable(spans, StartThenScore, y);
    FilterAgree(spans, Tied(StartThenScore, y), WithStartAndScore(start, score));
    FilterAgree(Sort(spans, StartThenScore), Tied(StartThenScore, y), WithStartAndScore(start, score));
  }

  /** What arrives for an input: its own fields, the list it came in, and both flags if it must not be restored. */
  lemma ArrivalKeepsFields(cat: Catalogue, x: Span, tag: Tag)
    ensures var y := WithFlags(cat, x, tag);
            && y.entityType == x.entityType && RangeOf(y) == RangeOf(x)
            && y.score == x.score && y.source == x.source && y.reversible == x.reversible && y.tag == tag
            && y.isProtected == y.irreversible == Flagged(cat, x)
  {
  }

  lemma SweepOfThree(cat: Catalogue, a: Span, b: Span, c: Span)
    requires b.start < a.end && c.start < Union(cat, b, a).end
    ensures SweepSpans(cat, [a, b, c]) == [Union(cat, c, Union(cat, b, a))]
  {
    assert Front([a, b, c]) == [a, b] && Front([a, b]) == [a] && Front([a]) == [];
    assert SweepSpans(cat, [a]) == [a];
    assert SweepSpans(cat, [a, b]) == [Union(cat, b, a)];
  }

  /** A span from another detector with the very same range leaves the first one's type in place. */
  lemma ExactKeepsTheFirst(cat: Catalogue, a: Span, b: Span)
    requires SameBounds(a, b) && a.start < a.end && b.tag != RegexList
    ensures SameBounds(Union(cat, b, a), a) && Union(cat, b, a).entityType == a.entityType
  {
  }

  lemma InOneOrder(cat: Catalogue, x: Span, y: Span, z: Span)
    requires x.start == y.start < z.start && x.score >= y.score
    ensures Ordered(cat, [x], [y, z], [])
         == [WithFlags(cat, x, RegexList), WithFlags(cat, y, NerList), WithFlags(cat, z, NerList)]
  {
    var all := Tagged(cat, [x], [y, z], []);
    assert all == [WithFlags(cat, x, RegexList), WithFlags(cat, y, NerList), WithFlags(cat, z, NerList)];
    SortedIsFixed(all, StartThenScore);
  }

  /** One output over `x`, then `y` with the range of `x`, then `z` across their end: `y` is gone when `z` arrives. */
  lemma IdenticalRangeHidesTheMostSpecific(cat: Catalogue, x: Span, y: Span, z: Span)
    requires x.start == y.start < z.start < x.end == y.end < z.end && x.score >= y.score
    requires cat.Rank(x.entityType) < cat.Rank(z.entityType) < cat.Rank(y.entityType)
    ensures var out := Arbitrated(cat, [x], [y, z], []);
            |out| == 1 && RangeOf(out[0]) == Range(x.start, z.end) && out[0].entityType == z.entityType
  {
    var a, b, c := WithFlags(cat, x, RegexList), WithFlags(cat, y, NerList), WithFlags(cat, z, NerList);
    InOneOrder(cat, x, y, z);
    ExactKeepsTheFirst(cat, a, b);
    var u := Union(cat, b, a);
    SweepOfThree(cat, a, b, c);
    UnionBounds(cat, c, u);
    assert Union(cat, c, u).entityType == z.entityType;
  }

  /** A person's name and a key with one range, and a URL across their end: the output is a URL. */
  lemma KeyIsReportedAsUrl(x: Span, y: Span, z: Span)
    requires x.entityType == "PERSON" && y.entityType == "API_KEY" && z.entityType == "URL"
    requires RangeOf(x) == RangeOf(y) == Range(0, 10) && RangeOf(z) == Range(5, 12) && x.score >= y.score
    ensures var out := Arbitrated(Shipped(), [x], [y, z], []);
            |out| == 1 && out[0].entityType == "URL" && RangeOf(out[0]) == Range(0, 12)
    ensures Shipped().Rank("URL") < Shipped().Rank("API_KEY")
  {
    IdenticalRangeHidesTheMostSpecific(Shipped(), x, y, z);
  }

  /** A reported span that must never be restored. */
  predicate Flagged(cat: Catalogue, x: Span) {
    || x.isProtected || x.irreversible || x.reversible == Some(false)
    || x.source == "enterprise" || x.source == "mnpi"
    || "MNPI_" <= x.entityType || x.entityType in cat.irreversibleTypes
  }

  lemma OrderedHoldsTheInputs(cat: Catalogue, regex: seq<Span>, ner: seq<Span>, additional: seq<seq<Span>>, y: Span)
    ensures y in Ordered(cat, regex, ner, additional) <==>
            || (exists x :: x in regex && y == WithFlags(cat, x, RegexList))
            || (exists x :: x in ner && y == WithFlags(cat, x, NerList))
            || (exists x :: x in Flatten(additional) && y == WithFlags(cat, x, OtherList))
  {
    SortKeepsMembers(Tagged(cat, regex, ner, additional), StartThenScore);
    TagAllMembers(cat, regex, RegexList, y);
    TagAllMembers(cat, ner, NerList, y);
    TagAllMembers(cat, Flatten(additional), OtherList, y);
  }

  lemma TagAllMembers(cat: Catalogue, spans: seq<Span>, tag: Tag, y: Span)
    ensures y in TagAll(cat, spans, tag) <==> exists x :: x in spans && y == WithFlags(cat, x, tag)
  {
    if y in TagAll(cat, spans, tag) {
      var i :| 0 <= i < |spans| && TagAll(cat, spans, tag)[i] == y;
      assert spans[i] in spans;
    }
    if x :| x in spans && y == WithFlags(cat, x, tag) {
      var i :| 0 <= i < |spans| && spans[i] == x;
      assert TagAll(cat, spans, tag)[i] == y;
    }
  }

  /** An output is protected, and equally irreversible, exactly when some input inside it was flagged. */
  lemma OutputIsProtectedIff(
    cat: Catalogue, regex: seq<Span>, ner: seq<Span>, additional: seq<seq<Span>>, o: Span)
    requires AllNonEmpty(Inputs(regex, ner, additional))
    requires o in Arbitrated(cat, regex, ner, additional)
    ensures o.isProtected == o.irreversible
    ensures o.isProtected <==>
            exists x :: x in Inputs(regex, ner, additional) && Inside(RangeOf(x), RangeOf(o)) && Flagged(cat, x)
  {
    var m := Members(Ordered(cat, regex, ner, additional), RangeOf(o));
    OutputsResolveTheirMembers(cat, regex, ner, additional, o);
    MembersAreFlagged(cat, regex, ner, additional, RangeOf(o));
    ProtectedIffAMemberIs(cat, m);
  }

  lemma MembersAreFlagged(
    cat: Catalogue, regex: seq<Span>, ner: seq<Span>, additional: seq<seq<Span>>, o: Range)
    ensures var m := Members(Ordered(cat, regex, ner, additional), o);
            && (forall i :: 0 <= i < |m| ==> m[i].isProtected == m[i].irreversible)
            && ((exists i :: 0 <= i < |m| && m[i].isProtected) <==>
                exists x :: x in Inputs(regex, ner, additional) && Inside(RangeOf(x), o) && Flagged(cat, x))
  {
    var ordered := Ordered(cat, regex, ner, additional);
    var m := Members(ordered, o);
    FilterMembers(ordered, Within(o));
    forall i | 0 <= i < |m| ensures m[i].isProtected == m[i].irreversible {
      assert m[i] in m;
      OrderedHoldsTheInputs(cat, regex, ner, additional, m[i]);
    }
    if i :| 0 <= i < |m| && m[i].isProtected {
      assert m[i] in m;
      var x := OriginOf(cat, regex, ner, additional, m[i]);
    }
    if x :| x in Inputs(regex, ner, additional) && Inside(RangeOf(x), o) && Flagged(cat, x) {
      var y := ArrivalOf(cat, regex, ner, additional, x);
      assert y in m;
    }
  }

  lemma OriginOf(cat: Catalogue, regex: seq<Span>, ner: seq<Span>, additional: seq<seq<Span>>, y: Span)
    returns (x: Span)
    requires y in Ordered(cat, regex, ner, additional)
    ensures x in Inputs(regex, ner, additional) && RangeOf(x) == RangeOf(y) && Flagged(cat, x) == y.isProtected
  {
    OrderedHoldsTheInputs(cat, regex, ner, additional, y);
    if z :| z in regex && y == WithFlags(cat, z, RegexList) {
      x := z;
    } else if z :| z in ner && y == WithFlags(cat, z, NerList) {
      x := z;
    } else {
      x :| x in Flatten(additional) && y == WithFlags(cat, x, OtherList);
    }
  }

  lemma ArrivalOf(cat: Catalogue, regex: seq<Span>, ner: seq<Span>, additional: seq<seq<Span>>, x: Span)
    returns (y: Span)
    requires x in Inputs(regex, ner, additional)
    ensures y in Ordered(cat, regex, ner, additional) && RangeOf(x) == RangeOf(y) && Flagged(cat, x) == y.isProtected
  {
    var tag := if x in regex then RegexList else if x in ner then NerList else OtherList;
    y := WithFlags(cat, x, tag);
    OrderedHoldsTheInputs(cat, regex, ner, additional, y);
  }
}
