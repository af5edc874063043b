/**
 Overlap resolution across detectors (detection/span_arbiter.py).

 `MergeWith` follows the program's loop: it rescans every accepted span after each union.  `Sweep` is the
 one-pass form that only ever looks at the last accepted span.  The method is proved equal to the sweep, and
 the sweep is proved to compute the connected components of the "overlaps" relation.
 */
module SpanArbiter {
  import opened Catalogue
  import opened Intervals
  import opened Options
  import opened Sorting

  /** The list a span arrived in.  `Untagged` is a span whose temporary tag is absent. */
  datatype Tag = Untagged | RegexList | NerList | OtherList

  datatype Span = Span(
    entityType: string,
    start: int,
    end: int,
    score: real,
    source: string,
    isProtected: bool,
    irreversible: bool,
    reversible: Option<bool>,
    tag: Tag)

  datatype Overlap = Disjoint | Exact | Nested | Partial

  // ----- The operations on one or two spans -----

  function WithFlags(cat: Catalogue, span: Span, tag: Tag): Span {
    var irreversible :=
      || span.irreversible
      || span.reversible == Some(false)
      || span.entityType in cat.irreversibleTypes;
    var isProtected :=
      || span.isProtected
      || span.source in {"enterprise", "mnpi"}
      || "MNPI_" <= span.entityType
      || irreversible;
    span.(tag := tag, isProtected := isProtected, irreversible := irreversible || isProtected)
  }

  function OverlapType(a: Span, b: Span): Overlap {
    if a.end <= b.start || b.end <= a.start then Disjoint
    else if a.start == b.start && a.end == b.end then Exact
    else if (a.start >= b.start && a.end <= b.end) || (b.start >= a.start && b.end <= a.end) then Nested
    else Partial
  }

  predicate PrefersIncoming(cat: Catalogue, incoming: Span, accepted: Span, overlap: Overlap) {
    if overlap == Exact then incoming.tag == RegexList
    else cat.Rank(incoming.entityType) > cat.Rank(accepted.entityType)
  }

  function CoverUnion(winner: Span, other: Span): Span {
    var irreversible := winner.irreversible || other.irreversible;
    winner.(
      isProtected := winner.isProtected || other.isProtected,
      irreversible := irreversible,
      reversible := if irreversible then Some(false) else winner.reversible,
      start := Min(winner.start, other.start),
      end := Max(winner.end, other.end))
  }

  /** What replaces `incoming` and `accepted` when they overlap. */
  function Union(cat: Catalogue, incoming: Span, accepted: Span): Span {
    if PrefersIncoming(cat, incoming, accepted, OverlapType(incoming, accepted))
    then CoverUnion(incoming, accepted)
    else CoverUnion(accepted, incoming)
  }

  // ----- The input list -----

  predicate StartThenScore(a: Span, b: Span) {
    a.start < b.start || (a.start == b.start && a.score >= b.score)
  }

  predicate StartThenEnd(a: Span, b: Span) {
    a.start < b.start || (a.start == b.start && a.end <= b.end)
  }

  function Map<T, U>(f: T -> U, s: seq<T>): (r: seq<U>)
    ensures |r| == |s|
    ensures forall i :: 0 <= i < |s| ==> r[i] == f(s[i])
  {
    seq(|s|, i requires 0 <= i < |s| => f(s[i]))
  }

  function Tagger(cat: Catalogue, tag: Tag): Span -> Span {
    span => WithFlags(cat, span, tag)
  }

  function TagAll(cat: Catalogue, spans: seq<Span>, tag: Tag): seq<Span> {
    Map(Tagger(cat, tag), spans)
  }

  function Flatten<T>(lists: seq<seq<T>>): seq<T> {
    if lists == [] then [] else lists[0] + Flatten(lists[1..])
  }

  function Tagged(cat: Catalogue, regex: seq<Span>, ner: seq<Span>, additional: seq<seq<Span>>): seq<Span> {
    TagAll(cat, regex, RegexList) + TagAll(cat, ner, NerList) + TagAll(cat, Flatten(additional), OtherList)
  }

  function Ordered(cat: Catalogue, regex: seq<Span>, ner: seq<Span>, additional: seq<seq<Span>>): seq<Span> {
    Sort(Tagged(cat, regex, ner, additional), StartThenScore)
  }

  function Untag(spans: seq<Span>): (r: seq<Span>)
    ensures |r| == |spans|
    ensures forall i :: 0 <= i < |r| ==> r[i] == spans[i].(tag := Untagged)
  {
    if spans == [] then [] else [spans[0].(tag := Untagged)] + Untag(spans[1..])
  }

  function RangeOf(x: Span): Range {
    Range(x.start, x.end)
  }

  function Bounds(spans: seq<Span>): (r: seq<Range>)
    ensures |r| == |spans|
  {
    seq(|spans|, i requires 0 <= i < |spans| => RangeOf(spans[i]))
  }

  predicate AllNonEmpty(spans: seq<Span>) {
    forall i :: 0 <= i < |spans| ==> spans[i].start < spans[i].end
  }

  // ----- The linear form -----

  function AbsorbSpan(cat: Catalogue, accepted: seq<Span>, span: Span): seq<Span> {
    if accepted == [] || Last(accepted).end <= span.start then accepted + [span]
    else Front(accepted) + [Union(cat, span, Last(accepted))]
  }

  function SweepSpans(cat: Catalogue, spans: seq<Span>): seq<Span> {
    if spans == [] then [] else AbsorbSpan(cat, SweepSpans(cat, Front(spans)), Last(spans))
  }

  function Arbitrated(cat: Catalogue, regex: seq<Span>, ner: seq<Span>, additional: seq<seq<Span>>): seq<Span> {
    Untag(SweepSpans(cat, Ordered(cat, regex, ner, additional)))
  }

  // ----- The program's loop -----

  /** One turn of the outer loop: rescan from the first accepted span after every union. */
  method Accept(cat: Catalogue, accepted: seq<Span>, span: Span) returns (merged: seq<Span>)
    requires Separated(Bounds(accepted)) && span.start < span.end
    requires forall i :: 0 <= i < |accepted| ==> accepted[i].start <= span.start
    ensures merged == AbsorbSpan(cat, accepted, span)
  {
    merged := accepted;
    var pending := span;
    while true
      invariant Separated(Bounds(merged)) && pending.start < pending.end
      invariant forall i :: 0 <= i < |merged| ==> merged[i].start <= pending.start
      invariant AbsorbSpan(cat, merged, pending) == AbsorbSpan(cat, accepted, span)
      decreases |merged|
    {
      var index := 0;
      while index < |merged| && OverlapType(pending, merged[index]) == Overlap.Disjoint
        invariant 0 <= index <= |merged|
        invariant forall i :: 0 <= i < index ==> OverlapType(pending, merged[i]) == Overlap.Disjoint
      {
        index := index + 1;
      }
      if index == |merged| {
        NothingOverlaps(cat, merged, pending);
        merged := merged + [pending];
        break;
      }
      OnlyLastOverlaps(cat, merged, pending, index);
      pending := Union(cat, pending, merged[index]);
      merged := merged[..index] + merged[index + 1..];
    }
  }

  method MergeWith(cat: Catalogue, regex: seq<Span>, ner: seq<Span>, additional: seq<seq<Span>>)
    returns (merged: seq<Span>)
    requires AllNonEmpty(Inputs(regex, ner, additional))
    ensures merged == Arbitrated(cat, regex, ner, additional)
  {
    if regex == [] && ner == [] && Flatten(additional) == [] {
      return [];
    }
    var tagged := TagAll(cat, regex, RegexList);
    tagged := tagged + TagAll(cat, ner, NerList);
    ghost var head := tagged;
    for k := 0 to |additional|
      invariant tagged + TagAll(cat, Flatten(additional[k..]), OtherList)
             == head + TagAll(cat, Flatten(additional), OtherList)
    {
      assert additional[k..][1..] == additional[k + 1..];
      MapAppend(Tagger(cat, OtherList), additional[k], Flatten(additional[k + 1..]));
      tagged := tagged + TagAll(cat, additional[k], OtherList);
    }
    assert tagged == Tagged(cat, regex, ner, additional) by {
      assert tagged == tagged + TagAll(cat, Flatten(additional[|additional|..]), OtherList);
    }
    var combined := Sort(tagged, StartThenScore);
    OrderedIsUsable(cat, regex, ner, additional);

    merged := [];
    for k := 0 to |combined|
      invariant merged == SweepSpans(cat, combined[..k])
    {
      assert Front(combined[..k + 1]) == combined[..k] && Last(combined[..k + 1]) == combined[k];
      PrefixIsReady(cat, combined, k);
      merged := Accept(cat, merged, combined[k]);
    }
    assert combined[..|combined|] == combined;
    FinalSortIsIdle(cat, combined);
    merged := Untag(merged);
    merged := Sort(merged, StartThenEnd);
  }

  /** The entry point, with the tables the program ships with. */
  method Merge(regex: seq<Span>, ner: seq<Span>, additional: seq<seq<Span>>) returns (merged: seq<Span>)
    requires AllNonEmpty(Inputs(regex, ner, additional))
    ensures merged == Arbitrated(Shipped(), regex, ner, additional)
  {
    merged := MergeWith(Shipped(), regex, ner, additional);
  }

  lemma NothingOverlaps(cat: Catalogue, merged: seq<Span>, pending: Span)
    requires forall i :: 0 <= i < |merged| ==> merged[i].start <= pending.start && pending.start < pending.end
    requires forall i :: 0 <= i < |merged| ==> OverlapType(pending, merged[i]) == Overlap.Disjoint
    ensures AbsorbSpan(cat, merged, pending) == merged + [pending]
  {
    if merged != [] {
      assert OverlapType(pending, merged[|merged| - 1]) == Overlap.Disjoint;
    }
  }

  /** Because inputs arrive by start, an overlap can only be with the last accepted span, and only once. */
  lemma OnlyLastOverlaps(cat: Catalogue, merged: seq<Span>, pending: Span, index: nat)
    requires Separated(Bounds(merged)) && pending.start < pending.end
    requires forall i :: 0 <= i < |merged| ==> merged[i].start <= pending.start
    requires index < |merged| && OverlapType(pending, merged[index]) != Overlap.Disjoint
    ensures index == |merged| - 1
    ensures var u := Union(cat, pending, merged[index]);
            var rest := merged[..index] + merged[index + 1..];
            && rest == Front(merged) && Separated(Bounds(rest))
            && u.start < u.end
            && (forall i :: 0 <= i < |rest| ==> rest[i].end <= u.start && rest[i].start <= u.start)
            && AbsorbSpan(cat, rest, u) == AbsorbSpan(cat, merged, pending)
  {
    var b := Bounds(merged);
    assert forall i :: 0 <= i < |merged| - 1 ==> b[i].end <= b[|merged| - 1].start;
    assert b[index] == RangeOf(merged[index]) && b[|merged| - 1] == RangeOf(merged[|merged| - 1]);
    UnionBounds(cat, pending, merged[index]);
    var rest := Front(merged);
    assert merged[..index] + merged[index + 1..] == rest;
    forall i | 0 <= i < |rest|
      ensures rest[i].start < rest[i].end <= merged[index].start
    {
      assert b[i] in b && b[i].end <= b[index].start;
    }
    assert Bounds(rest) == Front(b);
  }

  lemma UnionBounds(cat: Catalogue, x: Span, last: Span)
    ensures RangeOf(Union(cat, x, last)) == Range(Min(last.start, x.start), Max(last.end, x.end))
  {
  }

  // ----- The input list -----

  lemma MapAppend<T, U>(f: T -> U, a: seq<T>, b: seq<T>)
    ensures Map(f, a + b) == Map(f, a) + Map(f, b)
  {
  }

  /** Every span any detector reported. */
  function Inputs(regex: seq<Span>, ner: seq<Span>, additional: seq<seq<Span>>): seq<Span> {
    regex + ner + Flatten(additional)
  }

  lemma TaggedKeepsBounds(cat: Catalogue, regex: seq<Span>, ner: seq<Span>, additional: seq<seq<Span>>)
    ensures Bounds(Tagged(cat, regex, ner, additional)) == Bounds(Inputs(regex, ner, additional))
  {
  }

  lemma SortKeepsBounds(t: seq<Span>)
    ensures SameMembers(Bounds(Sort(t, StartThenScore)), Bounds(t))
    ensures SortedByStart(Bounds(Sort(t, StartThenScore)))
  {
    var c := Sort(t, StartThenScore);
    SortKeepsMembers(t, StartThenScore);
    SortSorts(t, StartThenScore);
    forall i, j | 0 <= i < j < |c| ensures c[i].start <= c[j].start {
      assert StartThenScore(c[i], c[j]);
    }
    SameSpansSameBounds(c, t);
    SameSpansSameBounds(t, c);
  }

  lemma SameSpansSameBounds(a: seq<Span>, b: seq<Span>)
    requires forall x :: x in a ==> x in b
    ensures forall r :: r in Bounds(a) ==> r in Bounds(b)
  {
    forall r | r in Bounds(a) ensures r in Bounds(b) {
      var i :| 0 <= i < |a| && RangeOf(a[i]) == r;
      assert a[i] in a;
      var j :| 0 <= j < |b| && b[j] == a[i];
      assert Bounds(b)[j] == r;
    }
  }

  lemma OrderedIsUsable(cat: Catalogue, regex: seq<Span>, ner: seq<Span>, additional: seq<seq<Span>>)
    requires AllNonEmpty(Inputs(regex, ner, additional))
    ensures var b := Bounds(Ordered(cat, regex, ner, additional));
            NonEmpty(b) && SortedByStart(b) && SameMembers(b, Bounds(Inputs(regex, ner, additional)))
  {
    TaggedKeepsBounds(cat, regex, ner, additional);
    SortKeepsBounds(Tagged(cat, regex, ner, additional));
  }

  // ----- The sweep over spans is the sweep over their bounds -----

  lemma {:induction false} SweepKeepsBounds(cat: Catalogue, spans: seq<Span>)
    ensures Bounds(SweepSpans(cat, spans)) == Sweep(Bounds(spans))
  {
    if spans == [] {
    } else {
      SweepKeepsBounds(cat, Front(spans));
      assert Front(Bounds(spans)) == Bounds(Front(spans));
      AbsorbKeepsBounds(cat, SweepSpans(cat, Front(spans)), Last(spans));
    }
  }

  lemma AbsorbKeepsBounds(cat: Catalogue, out: seq<Span>, x: Span)
    ensures Bounds(AbsorbSpan(cat, out, x)) == Absorb(Bounds(out), RangeOf(x))
  {
    if out != [] {
      UnionBounds(cat, x, Last(out));
      assert Front(Bounds(out)) == Bounds(Front(out));
    }
  }

  lemma PrefixIsReady(cat: Catalogue, combined: seq<Span>, k: nat)
    requires k < |combined|
    requires NonEmpty(Bounds(combined)) && SortedByStart(Bounds(combined))
    ensures var out := SweepSpans(cat, combined[..k]);
            && Separated(Bounds(out)) && combined[k].start < combined[k].end
            && forall i :: 0 <= i < |out| ==> out[i].start <= combined[k].start
  {
    var b := Bounds(combined);
    assert b[k] in b;
    assert Bounds(combined[..k]) == b[..k] && Front(b[..k + 1]) == b[..k];
    SweepKeepsBounds(cat, combined[..k]);
    SweepCovers(b[..k]);
    SweepStarts(b[..k + 1]);
    var out := SweepSpans(cat, combined[..k]);
    forall i | 0 <= i < |out| ensures out[i].start <= combined[k].start {
      assert Bounds(out)[i] in Bounds(out);
    }
  }

  lemma FinalSortIsIdle(cat: Catalogue, combined: seq<Span>)
    requires NonEmpty(Bounds(combined)) && SortedByStart(Bounds(combined))
    ensures var out := Untag(SweepSpans(cat, combined)); Sort(out, StartThenEnd) == out
  {
    var out := Untag(SweepSpans(cat, combined));
    SweepKeepsBounds(cat, combined);
    SweepCovers(Bounds(combined));
    var b := Bounds(SweepSpans(cat, combined));
    forall i, j | 0 <= i < j < |out| ensures StartThenEnd(out[i], out[j]) {
      assert b[i] in b && b[i].end <= b[j].start;
    }
    SortedIsFixed(out, StartThenEnd);
  }

  // ----- What the result covers -----

  lemma ArbitratedBounds(cat: Catalogue, regex: seq<Span>, ner: seq<Span>, additional: seq<seq<Span>>)
    ensures Bounds(Arbitrated(cat, regex, ner, additional))
         == Sweep(Bounds(Ordered(cat, regex, ner, additional)))
  {
    SweepKeepsBounds(cat, Ordered(cat, regex, ner, additional));
  }

  /** The outputs are exactly the overlap components of the inputs, in text order and pairwise disjoint. */
  lemma OutputsAreComponents(
    cat: Catalogue, regex: seq<Span>, ner: seq<Span>, additional: seq<seq<Span>>, c: Range)
    requires AllNonEmpty(Inputs(regex, ner, additional))
    ensures var out := Bounds(Arbitrated(cat, regex, ner, additional));
            Separated(out) && (c in out <==> IsComponent(Bounds(Inputs(regex, ner, additional)), c))
  {
    ArbitratedBounds(cat, regex, ner, additional);
    OrderedIsUsable(cat, regex, ner, additional);
    var b := Bounds(Ordered(cat, regex, ner, additional));
    SweepCovers(b);
    CoversIsComponents(b, Sweep(b), c);
    SameComponents(b, Bounds(Inputs(regex, ner, additional)), c);
  }

  /** No detected character is lost and none is added. */
  lemma OutputsCoverInputs(
    cat: Catalogue, regex: seq<Span>, ner: seq<Span>, additional: seq<seq<Span>>, p: int)
    requires AllNonEmpty(Inputs(regex, ner, additional))
    ensures Covered(Bounds(Arbitrated(cat, regex, ner, additional)), p)
       <==> Covered(Bounds(Inputs(regex, ner, additional)), p)
  {
    ArbitratedBounds(cat, regex, ner, additional);
    OrderedIsUsable(cat, regex, ner, additional);
    var b := Bounds(Ordered(cat, regex, ner, additional));
    SweepCovers(b);
    CoversKeepsCharacters(b, Sweep(b), p);
  }

  /** Each input lies in one output and is disjoint from every other. */
  lemma EachInputHasOneOutput(
    cat: Catalogue, regex: seq<Span>, ner: seq<Span>, additional: seq<seq<Span>>, x: Span)
    requires AllNonEmpty(Inputs(regex, ner, additional))
    requires x in Inputs(regex, ner, additional)
    ensures HeldOnce(Bounds(Arbitrated(cat, regex, ner, additional)), RangeOf(x))
  {
    ArbitratedBounds(cat, regex, ner, additional);
    OrderedIsUsable(cat, regex, ner, additional);
    var b := Bounds(Ordered(cat, regex, ner, additional));
    SweepCovers(b);
    SameSpansSameBounds([x], Inputs(regex, ner, additional));
    assert Bounds([x])[0] == RangeOf(x);
    CoversHoldsOnce(b, Sweep(b), RangeOf(x));
  }

  /** The output bounds depend neither on scores and types nor on which detector reported a range. */
  lemma BoundsIgnoreTheDetector(
    cat: Catalogue, regex: seq<Span>, ner: seq<Span>, additional: seq<seq<Span>>,
    cat': Catalogue, regex': seq<Span>, ner': seq<Span>, additional': seq<seq<Span>>)
    requires AllNonEmpty(Inputs(regex, ner, additional)) && AllNonEmpty(Inputs(regex', ner', additional'))
    requires SameMembers(Bounds(Inputs(regex, ner, additional)), Bounds(Inputs(regex', ner', additional')))
    ensures Bounds(Arbitrated(cat, regex, ner, additional)) == Bounds(Arbitrated(cat', regex', ner', additional'))
  {
    ArbitratedBounds(cat, regex, ner, additional);
    ArbitratedBounds(cat', regex', ner', additional');
    OrderedIsUsable(cat, regex, ner, additional);
    OrderedIsUsable(cat', regex', ner', additional');
    SweepIsCanonical(Bounds(Ordered(cat, regex, ner, additional)), Bounds(Ordered(cat', regex', ner', additional')));
  }
}
