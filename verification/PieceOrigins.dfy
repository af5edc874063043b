/**
 What the accepted pieces of the tokenizer say about the detections they were made from: which ranges they cover,
 whose type they carry, and when they can be restored.
 */
module PieceOrigins {
  import opened Intervals
  import opened Options
  import opened Sessions
  import opened Sorting
  import opened Tokenization

  /** A detection that the tokenizer does not ignore. */
  predicate InRange(text: string, d: Detection) {
    d.start.Some? && d.end.Some? && 0 <= d.start.value < d.end.value <= |text|
  }

  ghost predicate Inside(d: Detection, a: Piece)
    requires d.start.Some? && d.end.Some?
  {
    a.start <= d.start.value && d.end.value <= a.end
  }

  /** The piece of a detection; without a mark it is reversible. */
  ghost predicate IsPieceOf(p: Piece, d: Detection) {
    && d.start == Some(p.start) && d.end == Some(p.end) && p.entityType == d.entityType
    && (p.reversible <==> d.reversible != Some(false))
  }

  lemma PieceOfIs(text: string, d: Detection)
    ensures PieceOf(text, d).Some? <==> InRange(text, d)
    ensures InRange(text, d) ==> IsPieceOf(PieceOf(text, d).value, d)
  {
  }

  lemma {:induction false} ValidIff(text: string, ds: seq<Detection>, p: Piece)
    ensures p in Valid(text, ds) <==> exists d :: d in ds && InRange(text, d) && IsPieceOf(p, d)
  {
    if ds == [] {
    } else {
      ValidIff(text, Front(ds), p);
      PieceOfIs(text, Last(ds));
      assert ds == Front(ds) + [Last(ds)];
    }
  }

  // ----- Ranges -----

  /** `rs` are the ranges of the detections that are not ignored, in any order and number. */
  ghost predicate AreRangesOf(rs: seq<Range>, text: string, ds: seq<Detection>) {
    forall r :: r in rs <==> exists d :: d in ds && InRange(text, d) && r == Range(d.start.value, d.end.value)
  }

  lemma ValidRangesIff(text: string, ds: seq<Detection>, r: Range)
    ensures r in RangesOf(Valid(text, ds)) <==>
            exists d :: d in ds && InRange(text, d) && r == Range(d.start.value, d.end.value)
  {
    var valid := Valid(text, ds);
    if r in RangesOf(valid) {
      var i :| 0 <= i < |valid| && RangesOf(valid)[i] == r;
      ValidIff(text, ds, valid[i]);
      var d :| d in ds && InRange(text, d) && IsPieceOf(valid[i], d);
      assert r == Range(d.start.value, d.end.value);
    }
    if d :| d in ds && InRange(text, d) && r == Range(d.start.value, d.end.value) {
      PieceOfIs(text, d);
      var p := PieceOf(text, d).value;
      ValidIff(text, ds, p);
      var i :| 0 <= i < |valid| && valid[i] == p;
      assert RangesOf(valid)[i] == r;
    }
  }

  /** The tokenizer replaces exactly the overlap components of the detections it does not ignore. */
  lemma PiecesAreComponentsOfDetections(text: string, ds: seq<Detection>, rs: seq<Range>, c: Range)
    requires AreRangesOf(rs, text, ds)
    ensures c in RangesOf(Accepted(text, ds)) <==> IsComponent(rs, c)
  {
    forall r ensures r in rs <==> r in RangesOf(Valid(text, ds)) {
      ValidRangesIff(text, ds, r);
    }
    AcceptedAreComponents(text, ds, c);
    SameComponents(RangesOf(Valid(text, ds)), rs, c);
  }

  // ----- Reversibility -----

  lemma HolderIsUnique(acc: seq<Piece>, a: Piece, b: Piece, p: Piece)
    requires Separated(RangesOf(acc)) && a in acc && b in acc && Holds(a, p) && Holds(b, p) && p.start < p.end
    ensures a == b
  {
    var i :| 0 <= i < |acc| && acc[i] == a;
    var j :| 0 <= j < |acc| && acc[j] == b;
    var r, r' := RangesOf(acc)[i], RangesOf(acc)[j];
    assert r == Range(a.start, a.end) && r' == Range(b.start, b.end);
  }

  lemma CauseIsADetection(text: string, ds: seq<Detection>, a: Piece, ps: seq<Piece>)
    requires Caused(a, ps) && !a.reversible && forall p :: p in ps ==> p in Valid(text, ds)
    ensures exists d :: d in ds && InRange(text, d) && Inside(d, a) && d.reversible == Some(false)
  {
    var p :| p in ps && !p.reversible && Holds(a, p);
    ValidIff(text, ds, p);
    var d :| d in ds && InRange(text, d) && IsPieceOf(p, d);
    assert Inside(d, a) && d.reversible == Some(false);
  }

  lemma MarkedDetectionShields(text: string, ds: seq<Detection>, acc: seq<Piece>, a: Piece, d: Detection)
    requires Separated(RangesOf(acc)) && a in acc
    requires forall p :: p in Valid(text, ds) ==> Shielded(acc, p)
    requires d in ds && InRange(text, d) && Inside(d, a) && d.reversible == Some(false)
    ensures !a.reversible
  {
    PieceOfIs(text, d);
    var p := PieceOf(text, d).value;
    ValidIff(text, ds, p);
    assert Shielded(acc, p);
    var b :| b in acc && Holds(b, p) && (b.reversible ==> p.reversible);
    HolderIsUnique(acc, a, b, p);
  }

  /** An accepted piece is irreversible exactly if a detection inside it says so itself; silence is consent. */
  lemma PieceIsIrreversibleIff(text: string, ds: seq<Detection>, a: Piece)
    requires a in Accepted(text, ds)
    ensures !a.reversible <==> exists d :: d in ds && InRange(text, d) && Inside(d, a) && d.reversible == Some(false)
  {
    var ps := Sort(Valid(text, ds), LongestFirst);
    SortedPieces(text, ds);
    SortKeepsMembers(Valid(text, ds), LongestFirst);
    IrreversibleIffAPartIs(ps);
    AcceptedFits(text, ds);
    if !a.reversible {
      CauseIsADetection(text, ds, a, ps);
    }
    if d :| d in ds && InRange(text, d) && Inside(d, a) && d.reversible == Some(false) {
      MarkedDetectionShields(text, ds, Accepted(text, ds), a, d);
    }
  }

  /** Every edit's token is a key of the mapping, and stands for the characters it replaced. */
  ghost predicate AllMapped(text: string, ps: seq<Piece>, r: Issues)
    requires InText(text, ps) && |r.edits| == |ps|
  {
    forall i :: 0 <= i < |ps| ==> Get(r.mapping, r.edits[i].replacement) == Some(text[ps[i].start..ps[i].end])
  }

  /** In a fresh session without detections that say they are irreversible, every replaced value can be restored. */
  lemma UnmarkedValuesAreMapped(seed: nat, text: string, ds: seq<Detection>, ps: seq<Piece>, r: Issues)
    requires forall d :: d in ds && InRange(text, d) ==> d.reversible != Some(false)
    requires ps == Accepted(text, ds) && InText(text, ps) && r == TokenizeAll(Session(seed, map[], map[]), text, ps, map[])
    ensures AllMapped(text, ps, r)
  {
    var s := Session(seed, map[], map[]);
    FreshSessionIsTraced(seed);
    TokenizeCarries(s, text, ps, map[]);
    TokenizeKeepsMapping(s, text, ps, map[]);
    forall i | 0 <= i < |ps|
      ensures Get(r.mapping, r.edits[i].replacement) == Some(text[ps[i].start..ps[i].end])
    {
      PieceIsIrreversibleIff(text, ds, ps[i]);
      assert CarriesToken(r.session, text, ps[i], r.edits[i]);
      assert ValueIsMapped(r.session, r.mapping, text[ps[i].start..ps[i].end]);
    }
  }

  // ----- Types -----

  lemma {:induction false} LastAcceptedRange(front: seq<Piece>)
    requires front != [] && SortedByStart(RangesOf(front))
    ensures AcceptAll(front) != [] && Sweep(RangesOf(front)) != []
    ensures Last(Sweep(RangesOf(front))).end == Last(AcceptAll(front)).end
  {
    var acc := AcceptAll(front);
    AcceptKeepsRanges(front);
    assert RangesOf(acc)[|acc| - 1] == Range(acc[|acc| - 1].start, acc[|acc| - 1].end);
  }

  lemma {:induction false} AllEndByTheLast(front: seq<Piece>, j: nat)
    requires NonEmpty(RangesOf(front)) && SortedByStart(RangesOf(front)) && j < |front|
    ensures AcceptAll(front) != [] && front[j].start < Last(AcceptAll(front)).end
  {
    var rs := RangesOf(front);
    LastAcceptedRange(front);
    SweepCovers(rs);
    assert rs[j] in rs && rs[j] == Range(front[j].start, front[j].end);
    HeldByLast(Sweep(rs), rs[j]);
  }

  /** A new member widens the last piece, or begins a new one behind all that went before. */
  lemma {:induction false} NextPiece(front: seq<Piece>, p: Piece, a: Piece) returns (isNew: bool)
    requires NonEmpty(RangesOf(front)) && SortedByStart(RangesOf(front))
    requires a in AcceptNext(AcceptAll(front), p) && a !in AcceptAll(front)
    ensures isNew ==> a == p && forall j :: 0 <= j < |front| ==> front[j].start < p.start
    ensures !isNew ==> AcceptAll(front) != [] && a.start == Last(AcceptAll(front)).start
                       && a.entityType == Last(AcceptAll(front)).entityType
  {
    var acc := AcceptAll(front);
    isNew := acc == [] || p.start >= Last(acc).end;
    if isNew {
      forall j | 0 <= j < |front| ensures front[j].start < p.start {
        AllEndByTheLast(front, j);
      }
    } else {
      assert acc == Front(acc) + [Last(acc)];
    }
  }

  lemma FrontPieces(ps: seq<Piece>)
    requires ps != [] && NonEmpty(RangesOf(ps)) && SortedByStart(RangesOf(ps))
    ensures NonEmpty(RangesOf(Front(ps))) && SortedByStart(RangesOf(Front(ps)))
  {
    assert RangesOf(Front(ps)) == Front(RangesOf(ps));
    FrontIsSorted(RangesOf(ps));
  }

  /** `ps[i]` is the first to start where `a` starts, and has its type. */
  ghost predicate IsFirstOf(ps: seq<Piece>, i: nat, a: Piece) {
    && i < |ps| && ps[i].start == a.start && ps[i].entityType == a.entityType
    && forall j :: 0 <= j < i ==> ps[j].start < ps[i].start
  }

  lemma FirstStaysFirst(ps: seq<Piece>, i: nat, a: Piece, b: Piece)
    requires ps != [] && IsFirstOf(Front(ps), i, a) && a.start == b.start && a.entityType == b.entityType
    ensures IsFirstOf(ps, i, b)
  {
  }

  lemma LastIsFirstOf(ps: seq<Piece>)
    requires ps != [] && forall j :: 0 <= j < |Front(ps)| ==> Front(ps)[j].start < Last(ps).start
    ensures IsFirstOf(ps, |ps| - 1, Last(ps))
  {
    assert forall j :: 0 <= j < |ps| - 1 ==> ps[j] == Front(ps)[j];
  }

  /** A piece carries the type of the first sorted piece with its start. */
  lemma {:induction false} FirstOfPiece(ps: seq<Piece>, a: Piece) returns (i: nat)
    requires NonEmpty(RangesOf(ps)) && SortedByStart(RangesOf(ps)) && a in AcceptAll(ps)
    ensures IsFirstOf(ps, i, a)
  {
    FrontPieces(ps);
    if a in AcceptAll(Front(ps)) {
      i := FirstOfPiece(Front(ps), a);
      FirstStaysFirst(ps, i, a, a);
    } else {
      var isNew := NextPiece(Front(ps), Last(ps), a);
      if isNew {
        i := |ps| - 1;
        LastIsFirstOf(ps);
      } else {
        var last := Last(AcceptAll(Front(ps)));
        i := FirstOfPiece(Front(ps), last);
        FirstStaysFirst(ps, i, last, a);
      }
    }
  }

  lemma {:induction false} FirstFiltered<T>(s: seq<T>, keep: T -> bool, i: nat)
    requires i < |s| && keep(s[i]) && forall j :: 0 <= j < i ==> !keep(s[j])
    ensures Filter(s, keep) != [] && Filter(s, keep)[0] == s[i]
  {
    if i > 0 {
      FirstFiltered(s[1..], keep, i - 1);
    }
  }

  lemma {:induction false} FirstValid(text: string, ds: seq<Detection>, keep: Piece -> bool) returns (k: nat)
    requires Filter(Valid(text, ds), keep) != []
    ensures k < |ds| && PieceOf(text, ds[k]) == Some(Filter(Valid(text, ds), keep)[0])
    ensures forall j :: 0 <= j < k && PieceOf(text, ds[j]).Some? ==> !keep(PieceOf(text, ds[j]).value)
  {
    var front, last := Front(ds), PieceOf(text, Last(ds));
    if last.Some? {
      FilterAppend(Valid(text, front), [last.value], keep);
    }
    if Filter(Valid(text, front), keep) != [] {
      k := FirstValid(text, front, keep);
    } else {
      k := |ds| - 1;
      forall j | 0 <= j < k && PieceOf(text, ds[j]).Some? ensures !keep(PieceOf(text, ds[j]).value) {
        FilterMembers(Valid(text, front), keep);
        PieceOfIs(text, ds[j]);
        assert ds[j] == front[j];
        ValidIff(text, front, PieceOf(text, ds[j]).value);
      }
    }
  }

  /** Of the detections that start at `start`, the longest, and the first of those. */
  ghost predicate Leads(text: string, ds: seq<Detection>, k: nat, start: int)
    requires k < |ds|
  {
    && InRange(text, ds[k]) && ds[k].start.value == start
    && forall j :: 0 <= j < |ds| && InRange(text, ds[j]) && ds[j].start.value == start ==>
         ds[j].end.value < ds[k].end.value || (ds[j].end.value == ds[k].end.value && k <= j)
  }

  lemma FirstSortedIsLongest(ps: seq<Piece>, i: nat, q: Piece)
    requires SortedBy(ps, LongestFirst) && i < |ps| && q in ps && q.start == ps[i].start
    requires forall j :: 0 <= j < i ==> ps[j].start < ps[i].start
    ensures q.end <= ps[i].end
  {
    var j :| 0 <= j < |ps| && ps[j] == q;
    assert i < j ==> LongestFirst(ps[i], ps[j]);
  }

  /** A piece carries the type of the longest detection with its start, and of the first listed among equals. */
  lemma PieceKeepsTheLeadersType(text: string, ds: seq<Detection>, a: Piece) returns (k: nat)
    requires a in Accepted(text, ds)
    ensures k < |ds| && Leads(text, ds, k, a.start) && ds[k].entityType == a.entityType
  {
    var valid := Valid(text, ds);
    var ps := Sort(valid, LongestFirst);
    SortedPieces(text, ds);
    SortSorts(valid, LongestFirst);
    SortKeepsMembers(valid, LongestFirst);
    var i := FirstOfPiece(ps, a);
    k := FirstListed(text, ds, ps, i);
    forall j | 0 <= j < |ds| && InRange(text, ds[j]) && ds[j].start.value == a.start
      ensures ds[j].end.value < ds[k].end.value || (ds[j].end.value == ds[k].end.value && k <= j)
    {
      NoneComesBefore(text, ds, ps, i, k, j);
    }
  }

  /** The first detection in the list with the range of `ps[i]`. */
  lemma FirstListed(text: string, ds: seq<Detection>, ps: seq<Piece>, i: nat) returns (k: nat)
    requires ps == Sort(Valid(text, ds), LongestFirst) && i < |ps|
    requires forall j :: 0 <= j < i ==> ps[j].start < ps[i].start
    ensures k < |ds| && InRange(text, ds[k]) && IsPieceOf(ps[i], ds[k])
    ensures forall j :: 0 <= j < k && InRange(text, ds[j]) ==> !SameRange(ds[j], ps[i])
  {
    var same := Tied(LongestFirst, ps[i]);
    SortIsStable(Valid(text, ds), LongestFirst, ps[i]);
    FirstFiltered(ps, same, i);
    k := FirstValid(text, ds, same);
    PieceOfIs(text, ds[k]);
    forall j | 0 <= j < k && InRange(text, ds[j]) ensures !SameRange(ds[j], ps[i]) {
      PieceOfIs(text, ds[j]);
    }
  }

  predicate SameRange(d: Detection, p: Piece) {
    d.start == Some(p.start) && d.end == Some(p.end)
  }

  lemma NoneComesBefore(text: string, ds: seq<Detection>, ps: seq<Piece>, i: nat, k: nat, j: nat)
    requires i < |ps| && k < |ds| && IsPieceOf(ps[i], ds[k]) && SortedBy(ps, LongestFirst)
    requires forall p :: p in Valid(text, ds) ==> p in ps
    requires forall m :: 0 <= m < i ==> ps[m].start < ps[i].start
    requires forall m :: 0 <= m < k && InRange(text, ds[m]) ==> !SameRange(ds[m], ps[i])
    requires j < |ds| && InRange(text, ds[j]) && ds[j].start.value == ps[i].start
    ensures ds[j].end.value < ds[k].end.value || (ds[j].end.value == ds[k].end.value && k <= j)
  {
    PieceOfIs(text, ds[j]);
    var q := PieceOf(text, ds[j]).value;
    ValidIff(text, ds, q);
    FirstSortedIsLongest(ps, i, q);
  }
}
