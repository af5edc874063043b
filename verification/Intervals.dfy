/**
 Ranges of text and the one-pass union sweep, independent of what the ranges mean.

 `IsComponent` is the reference definition of what overlap resolution must return: a maximal stretch of text
 that the input ranges cover without a gap between neighbouring characters.
 */
module Intervals {

  datatype Range = Range(start: int, end: int)

  function Min(a: int, b: int): int { if a <= b then a else b }

  function Max(a: int, b: int): int { if a >= b then a else b }

  function Last<T>(s: seq<T>): T
    requires s != []
  {
    s[|s| - 1]
  }

  function Front<T>(s: seq<T>): seq<T>
    requires s != []
  {
    s[..|s| - 1]
  }

  ghost predicate NonEmpty(rs: seq<Range>) {
    forall r :: r in rs ==> r.start < r.end
  }

  ghost predicate SortedByStart(rs: seq<Range>) {
    forall i, j :: 0 <= i < j < |rs| ==> rs[i].start <= rs[j].start
  }

  /** Non-empty ranges in text order, no two sharing a character. */
  ghost predicate Separated(rs: seq<Range>) {
    && NonEmpty(rs)
    && forall i, j :: 0 <= i < j < |rs| ==> rs[i].end <= rs[j].start
  }

  // ----- The reference definition -----

  ghost predicate Inside(r: Range, o: Range) {
    o.start <= r.start && r.end <= o.end
  }

  /** Some range covers character `p`. */
  ghost predicate Covered(rs: seq<Range>, p: int) {
    exists r :: r in rs && r.start <= p < r.end
  }

  /** Some range covers both `p - 1` and `p`, so `p` cannot be a boundary. */
  ghost predicate Linked(rs: seq<Range>, p: int) {
    exists r :: r in rs && r.start < p < r.end
  }

  ghost predicate IsComponent(rs: seq<Range>, c: Range) {
    && c.start < c.end
    && Covered(rs, c.start)
    && !Linked(rs, c.start)
    && !Linked(rs, c.end)
    && forall p :: c.start < p < c.end ==> Linked(rs, p)
  }

  // ----- The sweep -----

  function Absorb(out: seq<Range>, r: Range): seq<Range> {
    if out == [] || Last(out).end <= r.start then out + [r]
    else Front(out) + [Range(Min(Last(out).start, r.start), Max(Last(out).end, r.end))]
  }

  function Sweep(rs: seq<Range>): seq<Range> {
    if rs == [] then [] else Absorb(Sweep(Front(rs)), Last(rs))
  }

  ghost predicate Contains(out: seq<Range>, r: Range) {
    exists o :: o in out && Inside(r, o)
  }

  ghost predicate Solid(rs: seq<Range>, o: Range) {
    Covered(rs, o.start) && forall p :: o.start < p < o.end ==> Linked(rs, p)
  }

  /** Every input lies inside some output. */
  ghost predicate HoldsAll(rs: seq<Range>, out: seq<Range>) {
    forall r :: r in rs ==> Contains(out, r)
  }

  /** Every output is covered without a gap. */
  ghost predicate AllSolid(rs: seq<Range>, out: seq<Range>) {
    forall o :: o in out ==> Solid(rs, o)
  }

  ghost predicate Covers(rs: seq<Range>, out: seq<Range>) {
    Separated(out) && HoldsAll(rs, out) && AllSolid(rs, out)
  }

  ghost predicate StartsBy(rs: seq<Range>, bound: int) {
    forall r :: r in rs ==> r.start <= bound
  }

  lemma SolidGrows(rs: seq<Range>, r: Range, o: Range)
    requires Solid(rs, o)
    ensures Solid(rs + [r], o)
  {
    forall p | Linked(rs, p) ensures Linked(rs + [r], p) {
      var x :| x in rs && x.start < p < x.end;
      assert x in rs + [r];
    }
    var x :| x in rs && x.start <= o.start < x.end;
    assert x in rs + [r];
  }

  lemma ContainsGrows(out: seq<Range>, r: Range, u: Range)
    requires out != [] && Contains(out, r)
    requires Inside(Last(out), u)
    ensures Contains(Front(out) + [u], r)
  {
    var o :| o in out && Inside(r, o);
    assert out == Front(out) + [Last(out)];
    assert (if o == Last(out) then u else o) in Front(out) + [u];
  }

  lemma AppendKeeps(rs: seq<Range>, out: seq<Range>, r: Range)
    requires Covers(rs, out) && r.start < r.end
    requires out == [] || Last(out).end <= r.start
    ensures Covers(rs + [r], out + [r])
  {
    AppendStaysSeparated(out, r);
    AppendHoldsAll(rs, out, r);
    assert r in rs + [r];
    forall o | o in out + [r] ensures Solid(rs + [r], o) {
      if o in out {
        SolidGrows(rs, r, o);
      }
    }
  }

  lemma AppendStaysSeparated(out: seq<Range>, r: Range)
    requires Separated(out) && r.start < r.end && (out == [] || Last(out).end <= r.start)
    ensures Separated(out + [r])
  {
    forall i | 0 <= i < |out| ensures out[i].end <= r.start {
      assert i < |out| - 1 ==> out[i].end <= out[|out| - 1].start;
      assert out[|out| - 1] in out;
    }
  }

  lemma AppendHoldsAll(rs: seq<Range>, out: seq<Range>, r: Range)
    requires HoldsAll(rs, out)
    ensures HoldsAll(rs + [r], out + [r])
  {
    forall x | x in rs + [r] ensures Contains(out + [r], x) {
      if x in rs {
        var o :| o in out && Inside(x, o);
        assert o in out + [r];
      } else {
        assert r in out + [r];
      }
    }
  }

  lemma WidenSolid(rs: seq<Range>, r: Range, last: Range, u: Range)
    requires Solid(rs, last) && last.start <= r.start < last.end
    requires u == Range(last.start, Max(last.end, r.end))
    ensures Solid(rs + [r], u)
  {
    SolidGrows(rs, r, last);
    assert r in rs + [r];
    forall p | u.start < p < u.end ensures Linked(rs + [r], p) {
      if p >= last.end {
        assert r.start < p < r.end;
      }
    }
  }

  lemma WidenKeeps(rs: seq<Range>, out: seq<Range>, r: Range)
    requires Covers(rs, out) && r.start < r.end
    requires out != [] && Last(out).start <= r.start < Last(out).end
    ensures Covers(rs + [r], Absorb(out, r))
  {
    var last := Last(out);
    var u := Range(last.start, Max(last.end, r.end));
    var out' := Front(out) + [u];
    assert Absorb(out, r) == out';
    assert last in out;
    assert Separated(out');
    forall x | x in rs + [r] ensures Contains(out', x) {
      if x in rs {
        ContainsGrows(out, x, u);
      } else {
        assert u in out';
      }
    }
    forall o | o in out' ensures Solid(rs + [r], o) {
      if o == u {
        WidenSolid(rs, r, last, u);
      } else {
        SolidGrows(rs, r, o);
      }
    }
  }

  lemma AbsorbStarts(out: seq<Range>, r: Range)
    requires StartsBy(out, r.start)
    ensures StartsBy(Absorb(out, r), r.start)
  {
  }

  lemma FrontIsSorted(rs: seq<Range>)
    requires rs != [] && NonEmpty(rs) && SortedByStart(rs)
    ensures NonEmpty(Front(rs)) && SortedByStart(Front(rs)) && Last(rs).start < Last(rs).end
    ensures Front(rs) != [] ==> Last(Front(rs)).start <= Last(rs).start
  {
    assert Last(rs) in rs;
    forall r | r in Front(rs) ensures r in rs {
      var i :| 0 <= i < |rs| - 1 && rs[i] == r;
    }
  }

  lemma {:induction false} SweepStarts(rs: seq<Range>)
    requires rs != [] && SortedByStart(rs)
    ensures StartsBy(Sweep(Front(rs)), Last(rs).start) && StartsBy(Sweep(rs), Last(rs).start)
  {
    if |rs| > 1 {
      SweepStarts(Front(rs));
      assert rs[|rs| - 2].start <= rs[|rs| - 1].start;
    }
    AbsorbStarts(Sweep(Front(rs)), Last(rs));
  }

  lemma {:induction false} SweepCovers(rs: seq<Range>)
    requires NonEmpty(rs) && SortedByStart(rs)
    ensures Covers(rs, Sweep(rs))
  {
    if rs == [] {
    } else {
      FrontIsSorted(rs);
      SweepCovers(Front(rs));
      SweepStarts(rs);
      LastCovers(rs, Sweep(Front(rs)));
    }
  }

  lemma LastCovers(rs: seq<Range>, out: seq<Range>)
    requires rs != [] && Covers(Front(rs), out) && Last(rs).start < Last(rs).end && StartsBy(out, Last(rs).start)
    ensures Covers(rs, Absorb(out, Last(rs)))
  {
    AbsorbCovers(Front(rs), out, Last(rs));
    assert Front(rs) + [Last(rs)] == rs;
  }

  lemma AbsorbCovers(rs: seq<Range>, out: seq<Range>, r: Range)
    requires Covers(rs, out) && r.start < r.end && StartsBy(out, r.start)
    ensures Covers(rs + [r], Absorb(out, r))
  {
    if out == [] || Last(out).end <= r.start {
      AppendKeeps(rs, out, r);
    } else {
      assert Last(out) in out;
      WidenKeeps(rs, out, r);
    }
  }

  /** A range that some output holds ends no later than the last output, and before it unless it is the last. */
  lemma HeldByLast(out: seq<Range>, r: Range)
    requires Separated(out) && Contains(out, r) && r.start < r.end
    ensures r.end <= Last(out).end
    ensures Last(out).start < r.end ==> Inside(r, Last(out))
  {
    var o :| o in out && Inside(r, o);
    var i :| 0 <= i < |out| && out[i] == o;
    assert out[|out| - 1] in out;
    if i < |out| - 1 {
      assert out[i].end <= out[|out| - 1].start;
    }
  }

  // ----- Covers determines the output -----

  lemma OnlyOneHolder(out: seq<Range>, a: Range, b: Range, p: int)
    requires Separated(out) && a in out && b in out
    requires a.start <= p < a.end && b.start <= p < b.end
    ensures a == b
  {
  }

  lemma HolderBlocks(out: seq<Range>, r: Range, o: Range)
    requires Separated(out) && o in out && Contains(out, r)
    ensures !(r.start < o.start < r.end) && !(r.start < o.end < r.end)
  {
    assert o.start < o.end;
    var h :| h in out && Inside(r, h);
    if h.start <= o.start < h.end {
      OnlyOneHolder(out, o, h, o.start);
    } else if h.start <= o.end - 1 < h.end {
      OnlyOneHolder(out, o, h, o.end - 1);
    }
  }

  lemma EndsAreUnlinked(rs: seq<Range>, out: seq<Range>, o: Range)
    requires Separated(out) && o in out && HoldsAll(rs, out)
    ensures !Linked(rs, o.start) && !Linked(rs, o.end)
  {
    forall r | r in rs ensures !(r.start < o.start < r.end) && !(r.start < o.end < r.end) {
      HolderBlocks(out, r, o);
    }
  }

  /** A list that covers the inputs consists of exactly their components. */
  lemma CoversIsComponents(rs: seq<Range>, out: seq<Range>, c: Range)
    requires Covers(rs, out) && NonEmpty(rs)
    ensures c in out <==> IsComponent(rs, c)
  {
    if c in out {
      assert Solid(rs, c);
      EndsAreUnlinked(rs, out, c);
    }
    if IsComponent(rs, c) {
      var o := HolderOfStart(rs, out, c.start);
      assert Solid(rs, o);
      EndsAreUnlinked(rs, out, o);
      SolidIsAComponent(rs, o, c);
    }
  }

  lemma HolderOfStart(rs: seq<Range>, out: seq<Range>, p: int) returns (o: Range)
    requires HoldsAll(rs, out) && Covered(rs, p)
    ensures o in out && o.start <= p < o.end
  {
    var r :| r in rs && r.start <= p < r.end;
    assert Contains(out, r);
    o :| o in out && Inside(r, o);
  }

  lemma SolidIsAComponent(rs: seq<Range>, o: Range, c: Range)
    requires Solid(rs, o) && !Linked(rs, o.end)
    requires IsComponent(rs, c) && o.start <= c.start < o.end
    ensures o == c
  {
    assert o.start == c.start;
    assert c.end < o.end ==> Linked(rs, c.end);
  }

  /** A component reaches no further than the ranges it is made of. */
  lemma ComponentIsWithin(rs: seq<Range>, c: Range, size: nat)
    requires IsComponent(rs, c) && forall r :: r in rs ==> 0 <= r.start < r.end <= size
    ensures 0 <= c.start < c.end <= size
  {
    var r :| r in rs && r.start <= c.start < r.end;
    if c.end > c.start + 1 {
      assert Linked(rs, c.end - 1);
    }
  }

  lemma {:induction false} SeparatedIsUnique(a: seq<Range>, b: seq<Range>)
    requires Separated(a) && Separated(b)
    requires forall r :: r in a <==> r in b
    ensures a == b
  {
    if a == [] {
      assert forall i :: 0 <= i < |b| ==> b[i] in b;
    } else {
      assert a[0] in a && a[0] in b;
      assert b[0] in a;
      FirstIsLeast(a, b[0]);
      FirstIsLeast(b, a[0]);
      forall r ensures r in a[1..] <==> r in b[1..] {
        TailMembers(a, r);
        TailMembers(b, r);
      }
      SeparatedIsUnique(a[1..], b[1..]);
      assert a == [a[0]] + a[1..] && b == [b[0]] + b[1..];
    }
  }

  lemma FirstIsLeast(a: seq<Range>, r: Range)
    requires Separated(a) && r in a
    ensures r == a[0] || a[0].start < r.start
  {
    assert a[0] in a;
  }

  lemma TailMembers(a: seq<Range>, r: Range)
    requires Separated(a) && a != []
    ensures r in a[1..] <==> r in a && r != a[0]
  {
    assert a == [a[0]] + a[1..];
    if r in a[1..] {
      var i :| 0 <= i < |a[1..]| && a[1..][i] == r;
      assert a[0] in a && a[0].end <= a[i + 1].start && a[i + 1] in a;
    }
  }

  ghost predicate SameMembers(a: seq<Range>, b: seq<Range>) {
    forall r :: r in a <==> r in b
  }

  /** The sweep depends only on which ranges occur, not on their order within a start or their multiplicity. */
  lemma SweepIsCanonical(a: seq<Range>, b: seq<Range>)
    requires NonEmpty(a) && SortedByStart(a) && NonEmpty(b) && SortedByStart(b)
    requires SameMembers(a, b)
    ensures Sweep(a) == Sweep(b)
  {
    SweepCovers(a);
    SweepCovers(b);
    forall c ensures c in Sweep(a) <==> c in Sweep(b) {
      CoversIsComponents(a, Sweep(a), c);
      CoversIsComponents(b, Sweep(b), c);
      SameComponents(a, b, c);
    }
    SeparatedIsUnique(Sweep(a), Sweep(b));
  }

  lemma SameComponents(a: seq<Range>, b: seq<Range>, c: Range)
    requires SameMembers(a, b)
    ensures IsComponent(a, c) <==> IsComponent(b, c)
  {
    forall p ensures Linked(a, p) <==> Linked(b, p) {
    }
    assert Covered(a, c.start) <==> Covered(b, c.start);
  }

  /** No character is gained or lost. */
  lemma CoversKeepsCharacters(rs: seq<Range>, out: seq<Range>, p: int)
    requires Covers(rs, out)
    ensures Covered(rs, p) <==> Covered(out, p)
  {
    if Covered(rs, p) {
      var o := HolderOfStart(rs, out, p);
    }
    if Covered(out, p) {
      var o :| o in out && o.start <= p < o.end;
      SolidIsCovered(rs, o, p);
    }
  }

  lemma SolidIsCovered(rs: seq<Range>, o: Range, p: int)
    requires Solid(rs, o) && o.start <= p < o.end
    ensures Covered(rs, p)
  {
    if o.start < p {
      assert Linked(rs, p);
      var r :| r in rs && r.start < p < r.end;
    }
  }

  ghost predicate HeldOnce(out: seq<Range>, r: Range) {
    exists i :: 0 <= i < |out| && HeldOnlyBy(out, r, i)
  }

  ghost predicate HeldOnlyBy(out: seq<Range>, r: Range, i: nat)
    requires i < |out|
  {
    && Inside(r, out[i])
    && forall j :: 0 <= j < |out| && j != i ==> out[j].end <= r.start || r.end <= out[j].start
  }

  /** Every input lies inside exactly one output. */
  lemma CoversHoldsOnce(rs: seq<Range>, out: seq<Range>, r: Range)
    requires Separated(out) && HoldsAll(rs, out) && r in rs
    ensures HeldOnce(out, r)
  {
    assert Contains(out, r);
    var o :| o in out && Inside(r, o);
    var i :| 0 <= i < |out| && out[i] == o;
    assert HeldOnlyBy(out, r, i);
  }
}
