/**
 From the arbiter to the tokenizer (pipeline/detection.py): each output that is passed on becomes one detection, marked
 reversible or not.  The tokenizer then has nothing left to merge, and nothing that was flagged gets a token that the
 mapping could undo.
 */
module Pipeline {
  import opened Catalogue
  import opened Decoding
  import opened Intervals
  import opened Options
  import opened RoundTrip
  import opened Sessions
  import opened SpanArbiter
  import opened SpanWinner
  import opened Splicing
  import opened Text
  import S = Sorting
  import T = Tokenization

  /** The mark set on an output; `names` are the types configured as irreversible. */
  predicate IsReversible(names: set<string>, o: Span) {
    o.entityType !in names && o.source != "enterprise" && !o.irreversible && !o.isProtected
  }

  function DetectionOf(names: set<string>, o: Span): T.Detection {
    T.Detection(o.entityType, Some(o.start), Some(o.end), Some(IsReversible(names, o)))
  }

  function PieceFor(names: set<string>, o: Span): T.Piece {
    T.Piece(o.entityType, o.start, o.end, IsReversible(names, o))
  }

  function Detections(names: set<string>, chosen: seq<Span>): (ds: seq<T.Detection>)
    ensures |ds| == |chosen|
  {
    if chosen == [] then [] else Detections(names, Front(chosen)) + [DetectionOf(names, Last(chosen))]
  }

  function Pieces(names: set<string>, chosen: seq<Span>): (ps: seq<T.Piece>)
    ensures |ps| == |chosen|
  {
    if chosen == [] then [] else Pieces(names, Front(chosen)) + [PieceFor(names, Last(chosen))]
  }

  /** Outputs of the arbiter, each at most once, in any order: exclusions may drop some and move others to the end. */
  ghost predicate ChosenFrom(chosen: seq<Span>, out: seq<Span>) {
    && (forall o :: o in chosen ==> o in out)
    && forall i, j :: 0 <= i < j < |chosen| ==> chosen[i] != chosen[j]
  }

  ghost predicate Within(spans: seq<Span>, size: nat) {
    forall x :: x in spans ==> 0 <= x.start < x.end <= size
  }

  // ----- The tokenizer accepts exactly what it is given -----

  lemma {:induction false} AllAreValid(names: set<string>, text: string, chosen: seq<Span>)
    requires forall o :: o in chosen ==> 0 <= o.start < o.end <= |text|
    ensures T.Valid(text, Detections(names, chosen)) == Pieces(names, chosen)
  {
    if chosen == [] {
    } else {
      assert chosen == Front(chosen) + [Last(chosen)];
      AllAreValid(names, text, Front(chosen));
      var ds := Detections(names, chosen);
      assert Last(ds) == DetectionOf(names, Last(chosen)) && Front(ds) == Detections(names, Front(chosen));
    }
  }

  lemma {:induction false} PieceAt(names: set<string>, chosen: seq<Span>, i: nat)
    requires i < |chosen|
    ensures Pieces(names, chosen)[i] == PieceFor(names, chosen[i])
  {
    if i < |chosen| - 1 {
      PieceAt(names, Front(chosen), i);
    }
  }

  /** Pieces in order that share no character are accepted as they are. */
  lemma {:induction false} SeparateAreAccepted(ps: seq<T.Piece>)
    requires forall i, j :: 0 <= i < j < |ps| ==> ps[i].end <= ps[j].start
    ensures T.AcceptAll(ps) == ps
  {
    if ps == [] {
    } else {
      SeparateAreAccepted(Front(ps));
      assert ps == Front(ps) + [Last(ps)];
    }
  }

  predicate Apart(p: T.Piece, q: T.Piece) {
    p.end <= q.start || q.end <= p.start
  }

  lemma ApartInOrder(ps: seq<T.Piece>)
    requires S.Pairwise(ps, Apart) && S.SortedBy(ps, T.LongestFirst) && forall p :: p in ps ==> p.start < p.end
    ensures forall i, j :: 0 <= i < j < |ps| ==> ps[i].end <= ps[j].start
  {
    forall i, j | 0 <= i < j < |ps| ensures ps[i].end <= ps[j].start {
      assert T.LongestFirst(ps[i], ps[j]) && Apart(ps[i], ps[j]) && ps[j] in ps;
    }
  }

  /** Outputs of the arbiter lie in the text and share no character. */
  lemma OutputsAreApart(
    cat: Catalogue, regex: seq<Span>, ner: seq<Span>, additional: seq<seq<Span>>, size: nat, a: Span, b: Span)
    requires Within(Inputs(regex, ner, additional), size)
    requires var out := Arbitrated(cat, regex, ner, additional); a in out && b in out
    ensures 0 <= a.start < a.end <= size
    ensures a == b || a.end <= b.start || b.end <= a.start
  {
    var out, rs := Arbitrated(cat, regex, ner, additional), Bounds(Inputs(regex, ner, additional));
    assert forall i :: 0 <= i < |Inputs(regex, ner, additional)| ==>
             Inputs(regex, ner, additional)[i] in Inputs(regex, ner, additional);
    var i :| 0 <= i < |out| && out[i] == a;
    var j :| 0 <= j < |out| && out[j] == b;
    assert Bounds(out)[i] == RangeOf(a) && Bounds(out)[j] == RangeOf(b);
    OutputsAreComponents(cat, regex, ner, additional, RangeOf(a));
    assert RangeOf(a) in Bounds(out);
    InputsAreWithin(Inputs(regex, ner, additional), size);
    ComponentIsWithin(rs, RangeOf(a), size);
  }

  lemma InputsAreWithin(spans: seq<Span>, size: nat)
    requires Within(spans, size)
    ensures forall r :: r in Bounds(spans) ==> 0 <= r.start < r.end <= size
  {
    forall r | r in Bounds(spans) ensures 0 <= r.start < r.end <= size {
      var i :| 0 <= i < |spans| && Bounds(spans)[i] == r;
      assert spans[i] in spans;
    }
  }

  /**
   The tokenizer accepts exactly the chosen outputs, in text order: its own merging has nothing to do, so every token
   stands for one output of the arbiter, with its type and its mark.
   */
  lemma OutputsAreAccepted(
    cat: Catalogue, regex: seq<Span>, ner: seq<Span>, additional: seq<seq<Span>>,
    names: set<string>, text: string, chosen: seq<Span>)
    requires Within(Inputs(regex, ner, additional), |text|)
    requires ChosenFrom(chosen, Arbitrated(cat, regex, ner, additional))
    ensures T.Accepted(text, Detections(names, chosen)) == S.Sort(Pieces(names, chosen), T.LongestFirst)
  {
    var ps := Pieces(names, chosen);
    forall o | o in chosen ensures 0 <= o.start < o.end <= |text| {
      OutputsAreApart(cat, regex, ner, additional, |text|, o, o);
    }
    AllAreValid(names, text, chosen);
    forall i, j | 0 <= i < j < |ps| ensures Apart(ps[i], ps[j]) {
      PieceAt(names, chosen, i);
      PieceAt(names, chosen, j);
      assert chosen[i] in chosen && chosen[j] in chosen;
      OutputsAreApart(cat, regex, ner, additional, |text|, chosen[i], chosen[j]);
    }
    ApartAreAccepted(text, ps);
  }

  lemma ApartAreAccepted(text: string, ps: seq<T.Piece>)
    requires S.Pairwise(ps, Apart) && forall p :: p in ps ==> p.start < p.end
    ensures T.AcceptAll(S.Sort(ps, T.LongestFirst)) == S.Sort(ps, T.LongestFirst)
  {
    S.SortKeepsPairwise(ps, T.LongestFirst, Apart);
    S.SortKeepsMembers(ps, T.LongestFirst);
    S.SortSorts(ps, T.LongestFirst);
    ApartInOrder(S.Sort(ps, T.LongestFirst));
    SeparateAreAccepted(S.Sort(ps, T.LongestFirst));
  }

  // ----- What is flagged is never restored -----

  /** Some detector's flagged span lies inside `p`. */
  ghost predicate HoldsAFlag(cat: Catalogue, inputs: seq<Span>, p: T.Piece) {
    exists x :: x in inputs && Inside(RangeOf(x), Range(p.start, p.end)) && Flagged(cat, x)
  }

  /** A secret's source is never lost from a winner that is not protected. */
  lemma EnterpriseIsProtected(
    cat: Catalogue, regex: seq<Span>, ner: seq<Span>, additional: seq<seq<Span>>, o: Span)
    requires AllNonEmpty(Inputs(regex, ner, additional))
    requires o in Arbitrated(cat, regex, ner, additional) && o.source == "enterprise"
    ensures o.isProtected
  {
    var ordered := Ordered(cat, regex, ner, additional);
    var m := Members(ordered, RangeOf(o));
    OutputsResolveTheirMembers(cat, regex, ner, additional, o);
    MembersAreFlagged(cat, regex, ner, additional, RangeOf(o));
    ProtectedIffAMemberIs(cat, m);
    TypeComesFromAMember(cat, m);
    var i :| 0 <= i < |m| && SameMetadata(Resolve(cat, m), m[i]);
    S.FilterMembers(ordered, SpanWinner.Within(RangeOf(o)));
    assert m[i] in m;
    OrderedHoldsTheInputs(cat, regex, ner, additional, m[i]);
    assert m[i].isProtected;
  }

  /** An accepted piece is reversible exactly when its type is and nothing inside it was flagged. */
  lemma PieceIsReversibleIff(
    cat: Catalogue, regex: seq<Span>, ner: seq<Span>, additional: seq<seq<Span>>,
    names: set<string>, text: string, chosen: seq<Span>, p: T.Piece)
    requires Within(Inputs(regex, ner, additional), |text|)
    requires ChosenFrom(chosen, Arbitrated(cat, regex, ner, additional))
    requires p in T.Accepted(text, Detections(names, chosen))
    ensures p.reversible <==> p.entityType !in names && !HoldsAFlag(cat, Inputs(regex, ner, additional), p)
  {
    OutputsAreAccepted(cat, regex, ner, additional, names, text, chosen);
    S.SortKeepsMembers(Pieces(names, chosen), T.LongestFirst);
    var i :| 0 <= i < |Pieces(names, chosen)| && Pieces(names, chosen)[i] == p;
    PieceAt(names, chosen, i);
    var o := chosen[i];
    assert o in chosen;
    NonEmptyInputs(Inputs(regex, ner, additional), |text|);
    OutputIsProtectedIff(cat, regex, ner, additional, o);
    if o.source == "enterprise" {
      EnterpriseIsProtected(cat, regex, ner, additional, o);
    }
  }

  lemma NonEmptyInputs(spans: seq<Span>, size: nat)
    requires Within(spans, size)
    ensures AllNonEmpty(spans)
  {
    assert forall i :: 0 <= i < |spans| ==> spans[i] in spans;
  }

  /**
   End to end: whatever the detectors report, a value with a flagged span inside it is replaced by a token that no
   mapping of the session undoes, now or later, not even by a token that equals it up to case.
   */
  lemma FlaggedValuesStayMasked(
    cat: Catalogue, regex: seq<Span>, ner: seq<Span>, additional: seq<seq<Span>>,
    names: set<string>, text: string, chosen: seq<Span>,
    s: T.Session, r: T.Issues, later: T.Session, mapping: map<string, string>, i: nat)
    requires Within(Inputs(regex, ner, additional), |text|)
    requires ChosenFrom(chosen, Arbitrated(cat, regex, ner, additional))
    requires var ps := T.Accepted(text, Detections(names, chosen));
             && T.InText(text, ps) && r == T.TokenizeAll(s, text, ps, map[])
             && i < |ps| && HoldsAFlag(cat, Inputs(regex, ner, additional), ps[i])
    requires Extends(r.session, later) && Sound(later) && MappingOk(later, mapping)
    ensures forall t :: t in mapping ==> FoldAll(t) != FoldAll(r.edits[i].replacement)
  {
    var ps := T.Accepted(text, Detections(names, chosen));
    PieceIsReversibleIff(cat, regex, ner, additional, names, text, chosen, ps[i]);
    StillCarries(s, text, ps, r, later);
    IrreversibleStaysMasked(later, mapping, text, ps, r.edits, i);
  }

  lemma IrreversibleStaysMasked(
    s: T.Session, mapping: map<string, string>, text: string, ps: seq<T.Piece>, edits: seq<Edit>, i: nat)
    requires Sound(s) && MappingOk(s, mapping)
    requires T.InText(text, ps) && |edits| == |ps| && CarriesTokens(s, text, ps, edits)
    requires i < |ps| && !ps[i].reversible
    ensures forall t :: t in mapping ==> FoldAll(t) != FoldAll(edits[i].replacement)
  {
    SoundIsPlaced(s, mapping, text, ps, edits);
    assert Placed(mapping, text, ps[i], edits[i]);
  }
}
