/**
 The tokenizer (tokenization/tokenizer.py): every accepted span is replaced by a `[TYPE_N]` token, the same
 value always by the same token, and only reversible values enter the mapping that undoes it.
 */
module Tokenization {
  import opened Intervals
  import opened Options
  import opened Sorting
  import opened Splicing
  import opened Text

  /** `start` and `end` are `None` when missing or not integers. */
  datatype Detection = Detection(entityType: string, start: Option<int>, end: Option<int>, reversible: Option<bool>)

  /** A valid detection, or the union of several; `reversible` defaults to true. */
  datatype Piece = Piece(entityType: string, start: int, end: int, reversible: bool)

  // ----- Non-overlapping pieces -----

  function PieceOf(text: string, d: Detection): Option<Piece> {
    if d.start.None? || d.end.None? then None
    else if d.start.value < 0 || d.end.value < 0 || d.start.value >= d.end.value || d.end.value > |text| then None
    else Some(Piece(d.entityType, d.start.value, d.end.value, d.reversible.GetOr(true)))
  }

  function Valid(text: string, ds: seq<Detection>): (ps: seq<Piece>)
    ensures forall p :: p in ps ==> 0 <= p.start < p.end <= |text|
  {
    if ds == [] then []
    else
      var p := PieceOf(text, Last(ds));
      if p.Some? then Valid(text, Front(ds)) + [p.value] else Valid(text, Front(ds))
  }

  predicate LongestFirst(a: Piece, b: Piece) {
    a.start < b.start || (a.start == b.start && a.end >= b.end)
  }

  /** The earlier piece keeps its type; the union is irreversible if either part is. */
  function AcceptNext(accepted: seq<Piece>, p: Piece): seq<Piece> {
    if accepted != [] && p.start < Last(accepted).end then
      var last := Last(accepted);
      Front(accepted) + [last.(end := Max(last.end, p.end), reversible := last.reversible && p.reversible)]
    else accepted + [p]
  }

  function AcceptAll(ps: seq<Piece>): seq<Piece> {
    if ps == [] then [] else AcceptNext(AcceptAll(Front(ps)), Last(ps))
  }

  function Accepted(text: string, ds: seq<Detection>): seq<Piece> {
    AcceptAll(Sort(Valid(text, ds), LongestFirst))
  }

  method ValidPieces(text: string, ds: seq<Detection>) returns (valid: seq<Piece>)
    ensures valid == Valid(text, ds)
  {
    valid := [];
    for k := 0 to |ds|
      invariant valid == Valid(text, ds[..k])
    {
      assert Front(ds[..k + 1]) == ds[..k];
      var p := PieceOf(text, ds[k]);
      if p.None? {
        continue;
      }
      valid := valid + [p.value];
    }
    assert ds[..|ds|] == ds;
  }

  method NonOverlapping(text: string, ds: seq<Detection>) returns (accepted: seq<Piece>)
    ensures accepted == Accepted(text, ds)
  {
    var valid := ValidPieces(text, ds);
    accepted := AcceptPieces(Sort(valid, LongestFirst));
  }

  method AcceptPieces(valid: seq<Piece>) returns (accepted: seq<Piece>)
    ensures accepted == AcceptAll(valid)
  {
    accepted := [];
    for k := 0 to |valid|
      invariant accepted == AcceptAll(valid[..k])
    {
      assert Front(valid[..k + 1]) == valid[..k];
      accepted := AcceptPiece(accepted, valid[k]);
    }
    assert valid[..|valid|] == valid;
  }

  /** The body of the loop: merge with the last accepted piece or append. */
  method AcceptPiece(before: seq<Piece>, p: Piece) returns (accepted: seq<Piece>)
    ensures accepted == AcceptNext(before, p)
  {
    accepted := before;
    if accepted != [] && p.start < accepted[|accepted| - 1].end {
      var last := accepted[|accepted| - 1];
      var merged := last.(end := Max(last.end, p.end));
      if !last.reversible || !p.reversible {
        merged := merged.(reversible := false);
      }
      assert merged == last.(end := Max(last.end, p.end), reversible := last.reversible && p.reversible);
      accepted := accepted[|accepted| - 1 := merged];
    } else {
      accepted := accepted + [p];
    }
  }

  // ----- Sessions and tokens -----

  type Key = (string, bool)

  /** Counters per truncated type, the token of every value seen, and the random offset. */
  datatype Session = Session(seed: nat, counters: map<string, nat>, issued: map<Key, string>)

  function TokenText(shortType: string, index: nat): string {
    "[" + shortType + "_" + Decimal(index) + "]"
  }

  function Short(entityType: string): string {
    if |entityType| <= 20 then entityType else entityType[..20]
  }

  datatype Issue = Issue(session: Session, mapping: map<string, string>, token: string)

  function TokenFor(s: Session, value: string, p: Piece, mapping: map<string, string>): Issue {
    var key := (value, p.reversible);
    if key in s.issued then Issue(s, mapping, s.issued[key])
    else
      var t := Short(p.entityType);
      var counter := Get(s.counters, t).GetOr(0);
      var token := TokenText(t, s.seed + counter);
      Issue(
        Session(s.seed, s.counters[t := counter + 1], s.issued[key := token]),
        if p.reversible then mapping[token := value] else mapping,
        token)
  }

  datatype Issues = Issues(session: Session, mapping: map<string, string>, edits: seq<Edit>)

  predicate InText(text: string, ps: seq<Piece>) {
    forall i :: 0 <= i < |ps| ==> 0 <= ps[i].start <= ps[i].end <= |text|
  }

  function TokenizeAll(s: Session, text: string, ps: seq<Piece>, mapping: map<string, string>): (r: Issues)
    requires InText(text, ps)
    ensures |r.edits| == |ps|
    decreases |ps|
  {
    if ps == [] then Issues(s, mapping, [])
    else
      var p := ps[0];
      var first := TokenFor(s, text[p.start..p.end], p, mapping);
      var rest := TokenizeAll(first.session, text, ps[1..], first.mapping);
      Issues(rest.session, rest.mapping, [Edit(p.start, p.end, first.token)] + rest.edits)
  }

  class Tokenizer {
    var counters: map<string, nat>
    var issued: map<Key, string>
    var seed: nat

    function Contents(): Session
      reads this
    {
      Session(seed, counters, issued)
    }

    constructor ()
      ensures Contents() == Session(0, map[], map[])
    {
      counters, issued, seed := map[], map[], 0;
    }

    /** `random` is a fresh 64-bit number. */
    method InitializeSession(random: nat)
      modifies this
      ensures Contents() == Session(random, map[], map[])
    {
      counters, issued, seed := map[], map[], random;
    }

    method NextToken(value: string, p: Piece, mapping: map<string, string>)
      returns (token: string, mapping': map<string, string>)
      modifies this
      ensures Issue(Contents(), mapping', token) == TokenFor(old(Contents()), value, p, mapping)
    {
      var key := (value, p.reversible);
      mapping' := mapping;
      if key in issued {
        token := issued[key];
      } else {
        token := NewToken(key, Short(p.entityType));
        if p.reversible {
          mapping' := mapping'[token := value];
        }
      }
    }

    /** The next token of a type, stored under `key`. */
    method NewToken(key: Key, shortType: string) returns (token: string)
      modifies this
      ensures var c := Get(old(counters), shortType).GetOr(0);
              && token == TokenText(shortType, seed + c) && seed == old(seed)
              && counters == old(counters)[shortType := c + 1] && issued == old(issued)[key := token]
    {
      var counter := Get(counters, shortType).GetOr(0);
      token := TokenText(shortType, seed + counter);
      issued := issued[key := token];
      counters := counters[shortType := counter + 1];
    }

    method Tokenize(text: string, ds: seq<Detection>) returns (result: string, mapping: map<string, string>)
      modifies this
      ensures InText(text, Accepted(text, ds))
      ensures var r := TokenizeAll(old(Contents()), text, Accepted(text, ds), map[]);
              && Contents() == r.session && mapping == r.mapping
              && Fits(r.edits, 0, |text|) && result == Spliced(text, r.edits, 0)
    {
      AcceptedFits(text, ds);
      if ds == [] {
        return text, map[];
      }
      var accepted := NonOverlapping(text, ds);
      ghost var all := TokenizeAll(Contents(), text, accepted, map[]);
      EditsFit(Contents(), text, accepted, map[], 0);
      mapping := map[];
      var pieces, cursor := "", 0;
      for k := 0 to |accepted|
        invariant 0 <= cursor && Fits(all.edits[k..], cursor, |text|)
        invariant TokenizeAll(Contents(), text, accepted[k..], mapping) == Issues(all.session, all.mapping, all.edits[k..])
        invariant pieces + Spliced(text, all.edits[k..], cursor) == Spliced(text, all.edits, 0)
      {
        var p := accepted[k];
        StepTokenize(Contents(), text, accepted, k, mapping, all);
        SplicedStep(text, all.edits, k, cursor, pieces);
        pieces := pieces + text[cursor..p.start];
        var token;
        token, mapping := NextToken(text[p.start..p.end], p, mapping);
        pieces := pieces + token;
        cursor := p.end;
      }
      result := pieces + text[cursor..];
    }
  }

  lemma StepTokenize(s: Session, text: string, ps: seq<Piece>, k: nat, mapping: map<string, string>, all: Issues)
    requires InText(text, ps) && k < |ps| && |all.edits| == |ps|
    requires TokenizeAll(s, text, ps[k..], mapping) == Issues(all.session, all.mapping, all.edits[k..])
    ensures var p := ps[k];
            var first := TokenFor(s, text[p.start..p.end], p, mapping);
            && all.edits[k] == Edit(p.start, p.end, first.token)
            && TokenizeAll(first.session, text, ps[k + 1..], first.mapping)
               == Issues(all.session, all.mapping, all.edits[k + 1..])
  {
    assert ps[k..][1..] == ps[k + 1..] && ps[k..][0] == ps[k];
    assert all.edits[k..][0] == all.edits[k] && all.edits[k..][1..] == all.edits[k + 1..];
  }

  lemma SplicedStep(text: string, edits: seq<Edit>, k: nat, cursor: nat, before: string)
    requires k < |edits| && Fits(edits[k..], cursor, |text|)
    ensures var e := edits[k];
            && cursor <= e.start <= e.end <= |text| && Fits(edits[k + 1..], e.end, |text|)
            && before + Spliced(text, edits[k..], cursor)
               == before + text[cursor..e.start] + e.replacement + Spliced(text, edits[k + 1..], e.end)
  {
    assert edits[k..][1..] == edits[k + 1..] && edits[k..][0] == edits[k];
    var e := edits[k];
    var rest := Spliced(text, edits[k + 1..], e.end);
    assert before + (text[cursor..e.start] + e.replacement + rest) == before + text[cursor..e.start] + e.replacement + rest;
  }

  // ----- Accepted pieces are the overlap components -----

  function RangesOf(ps: seq<Piece>): (r: seq<Range>)
    ensures |r| == |ps|
  {
    seq(|ps|, i requires 0 <= i < |ps| => Range(ps[i].start, ps[i].end))
  }

  lemma AcceptNextRanges(acc: seq<Piece>, p: Piece)
    requires acc != [] ==> Last(acc).start <= p.start
    ensures RangesOf(AcceptNext(acc, p)) == Absorb(RangesOf(acc), Range(p.start, p.end))
    ensures Last(AcceptNext(acc, p)).start <= p.start
  {
    if acc != [] && p.start < Last(acc).end {
      assert Front(RangesOf(acc)) == RangesOf(Front(acc));
    }
  }

  lemma {:induction false} AcceptKeepsRanges(ps: seq<Piece>)
    requires SortedByStart(RangesOf(ps))
    ensures RangesOf(AcceptAll(ps)) == Sweep(RangesOf(ps))
    ensures ps != [] ==> AcceptAll(ps) != [] && Last(AcceptAll(ps)).start <= Last(ps).start
  {
    if ps == [] {
    } else {
      var rs, front := RangesOf(ps), Front(ps);
      assert Front(rs) == RangesOf(front);
      AcceptKeepsRanges(front);
      if front != [] {
        assert rs[|ps| - 2].start <= rs[|ps| - 1].start;
      }
      AcceptNextRanges(AcceptAll(front), Last(ps));
    }
  }

  lemma SortedPieces(text: string, ds: seq<Detection>)
    ensures var rs := RangesOf(Sort(Valid(text, ds), LongestFirst));
            && NonEmpty(rs) && SortedByStart(rs)
            && SameMembers(rs, RangesOf(Valid(text, ds)))
            && forall r :: r in rs ==> 0 <= r.start < r.end <= |text|
  {
    SortedPiecesOf(Valid(text, ds), |text|);
  }

  lemma SortedPiecesOf(valid: seq<Piece>, size: nat)
    requires forall p :: p in valid ==> 0 <= p.start < p.end <= size
    ensures var rs := RangesOf(Sort(valid, LongestFirst));
            && NonEmpty(rs) && SortedByStart(rs) && SameMembers(rs, RangesOf(valid))
            && forall r :: r in rs ==> 0 <= r.start < r.end <= size
  {
    var ps := Sort(valid, LongestFirst);
    SortKeepsMembers(valid, LongestFirst);
    SortSorts(valid, LongestFirst);
    forall i, j | 0 <= i < j < |ps| ensures ps[i].start <= ps[j].start {
      assert LongestFirst(ps[i], ps[j]);
    }
    SamePiecesSameRanges(ps, valid);
    SamePiecesSameRanges(valid, ps);
    RangesFit(ps, size);
  }

  lemma RangesFit(ps: seq<Piece>, size: nat)
    requires forall p :: p in ps ==> 0 <= p.start < p.end <= size
    ensures forall r :: r in RangesOf(ps) ==> 0 <= r.start < r.end <= size
  {
    forall r | r in RangesOf(ps) ensures 0 <= r.start < r.end <= size {
      var i :| 0 <= i < |ps| && RangesOf(ps)[i] == r;
      assert ps[i] in ps;
    }
  }

  lemma SamePiecesSameRanges(a: seq<Piece>, b: seq<Piece>)
    requires forall x :: x in a ==> x in b
    ensures forall r :: r in RangesOf(a) ==> r in RangesOf(b)
  {
    forall r | r in RangesOf(a) ensures r in RangesOf(b) {
      var i :| 0 <= i < |a| && RangesOf(a)[i] == r;
      assert a[i] in a;
      var j :| 0 <= j < |b| && b[j] == a[i];
      assert RangesOf(b)[j] == r;
    }
  }

  /** The accepted pieces are exactly the overlap components of the valid detections. */
  lemma AcceptedAreComponents(text: string, ds: seq<Detection>, c: Range)
    ensures Separated(RangesOf(Accepted(text, ds)))
    ensures c in RangesOf(Accepted(text, ds)) <==> IsComponent(RangesOf(Valid(text, ds)), c)
  {
    SortedPieces(text, ds);
    var ps := Sort(Valid(text, ds), LongestFirst);
    var rs := RangesOf(ps);
    AcceptKeepsRanges(ps);
    SweepCovers(rs);
    CoversIsComponents(rs, Sweep(rs), c);
    SameComponents(rs, RangesOf(Valid(text, ds)), c);
  }

  /** An accepted piece ends inside the text because every component does. */
  lemma AcceptedFits(text: string, ds: seq<Detection>)
    ensures InText(text, Accepted(text, ds)) && Separated(RangesOf(Accepted(text, ds)))
  {
    var acc := Accepted(text, ds);
    var rs := RangesOf(acc);
    forall i | 0 <= i < |acc| ensures 0 <= acc[i].start <= acc[i].end <= |text| {
      AcceptedAreComponents(text, ds, rs[i]);
      assert rs[i] in rs;
      ComponentInText(text, ds, rs[i]);
    }
    AcceptedAreComponents(text, ds, Range(0, 0));
  }

  lemma ComponentInText(text: string, ds: seq<Detection>, c: Range)
    requires IsComponent(RangesOf(Valid(text, ds)), c)
    ensures 0 <= c.start < c.end <= |text|
  {
    var rs := RangesOf(Valid(text, ds));
    forall r | r in rs ensures 0 <= r.start < r.end <= |text| {
      var i :| 0 <= i < |rs| && rs[i] == r;
      assert Valid(text, ds)[i] in Valid(text, ds);
    }
    ComponentIsWithin(rs, c, |text|);
  }

  lemma {:induction false} EditsFit(s: Session, text: string, ps: seq<Piece>, mapping: map<string, string>, cursor: int)
    requires InText(text, ps) && Separated(RangesOf(ps))
    requires if ps == [] then cursor <= |text| else cursor <= ps[0].start
    ensures Fits(TokenizeAll(s, text, ps, mapping).edits, cursor, |text|)
    decreases |ps|
  {
    if ps == [] {
    } else {
      var p := ps[0];
      var first := TokenFor(s, text[p.start..p.end], p, mapping);
      assert RangesOf(ps[1..]) == RangesOf(ps)[1..];
      assert |ps| > 1 ==> RangesOf(ps)[0].end <= RangesOf(ps)[1].start;
      assert forall r :: r in RangesOf(ps)[1..] ==> r in RangesOf(ps);
      EditsFit(first.session, text, ps[1..], first.mapping, p.end);
    }
  }

  // ----- Irreversibility is inherited -----

  predicate Holds(a: Piece, p: Piece) {
    a.start <= p.start && p.end <= a.end
  }

  /** Some accepted piece holds `p` and is irreversible if `p` is. */
  ghost predicate Shielded(acc: seq<Piece>, p: Piece) {
    exists a :: a in acc && Holds(a, p) && (a.reversible ==> p.reversible)
  }

  /** A piece is not irreversible without cause. */
  ghost predicate Caused(a: Piece, ps: seq<Piece>) {
    a.reversible || exists p :: p in ps && !p.reversible && Holds(a, p)
  }

  lemma CausedGrows(a: Piece, ps: seq<Piece>, p: Piece)
    requires Caused(a, ps)
    ensures Caused(a, ps + [p])
  {
    if !a.reversible {
      var x :| x in ps && !x.reversible && Holds(a, x);
      assert x in ps + [p];
    }
  }

  lemma ShieldedStays(acc: seq<Piece>, p: Piece, x: Piece)
    requires Shielded(acc, x) && (acc != [] ==> Last(acc).start <= p.start)
    ensures Shielded(AcceptNext(acc, p), x)
  {
    var a :| a in acc && Holds(a, x) && (a.reversible ==> x.reversible);
    assert acc == Front(acc) + [Last(acc)];
    var acc' := AcceptNext(acc, p);
    assert (if a == Last(acc) && p.start < Last(acc).end then Last(acc') else a) in acc';
  }

  lemma NewIsShielded(acc: seq<Piece>, p: Piece)
    requires acc != [] ==> Last(acc).start <= p.start
    ensures Shielded(AcceptNext(acc, p), p)
  {
    assert Last(AcceptNext(acc, p)) in AcceptNext(acc, p);
  }

  lemma LastIsCaused(acc: seq<Piece>, ps: seq<Piece>, p: Piece)
    requires acc != [] ==> Last(acc).start <= p.start && Caused(Last(acc), ps)
    ensures Caused(Last(AcceptNext(acc, p)), ps + [p])
  {
    assert p in ps + [p];
    if acc != [] {
      CausedGrows(Last(acc), ps, p);
    }
  }

  lemma ShieldingStep(acc: seq<Piece>, front: seq<Piece>, p: Piece)
    requires acc != [] ==> Last(acc).start <= p.start
    requires forall x :: x in front ==> Shielded(acc, x)
    ensures forall x :: x in front + [p] ==> Shielded(AcceptNext(acc, p), x)
  {
    forall x | x in front + [p] ensures Shielded(AcceptNext(acc, p), x) {
      if x in front {
        ShieldedStays(acc, p, x);
      } else {
        NewIsShielded(acc, p);
      }
    }
  }

  lemma CauseStep(acc: seq<Piece>, front: seq<Piece>, p: Piece)
    requires acc != [] ==> Last(acc).start <= p.start
    requires forall a :: a in acc ==> Caused(a, front)
    ensures forall a :: a in AcceptNext(acc, p) ==> Caused(a, front + [p])
  {
    assert acc != [] ==> Last(acc) in acc;
    LastIsCaused(acc, front, p);
    forall a | a in AcceptNext(acc, p) ensures Caused(a, front + [p]) {
      if a in acc {
        CausedGrows(a, front, p);
      } else {
        assert a == Last(AcceptNext(acc, p));
      }
    }
  }

  /** A piece is irreversible exactly when one of the detections it absorbed is, so no secret is restorable. */
  lemma {:induction false} IrreversibleIffAPartIs(ps: seq<Piece>)
    requires SortedByStart(RangesOf(ps))
    ensures forall p :: p in ps ==> Shielded(AcceptAll(ps), p)
    ensures forall a :: a in AcceptAll(ps) ==> Caused(a, ps)
  {
    if ps == [] {
    } else {
      var front, p := Front(ps), Last(ps);
      LastAcceptedStartsBefore(ps);
      IrreversibleIffAPartIs(front);
      ShieldingStep(AcceptAll(front), front, p);
      CauseStep(AcceptAll(front), front, p);
      assert ps == front + [p];
    }
  }

  lemma LastAcceptedStartsBefore(ps: seq<Piece>)
    requires ps != [] && SortedByStart(RangesOf(ps))
    ensures SortedByStart(RangesOf(Front(ps)))
    ensures AcceptAll(Front(ps)) != [] ==> Last(AcceptAll(Front(ps))).start <= Last(ps).start
  {
    var rs := RangesOf(ps);
    assert Front(rs) == RangesOf(Front(ps));
    AcceptKeepsRanges(Front(ps));
    if |ps| > 1 {
      assert rs[|ps| - 2].start <= rs[|ps| - 1].start;
    }
  }
}
