/**
 Masking detected spans in log text (logging_config.py, the end of `_redact_text`): sort, join overlapping
 and touching spans, and splice one marker over each.

 `Masked` says what the result must be one character at a time, without sorting, joining or cursors.
 */
module Redaction {
  import opened Intervals
  import opened Sorting
  import opened Splicing

  const MARKER := "[REDACTED]"

  const TRUNCATED := "[TRUNCATED]"

  predicate ByRange(a: Range, b: Range) {
    a.start < b.start || (a.start == b.start && a.end <= b.end)
  }

  function JoinNext(out: seq<Range>, r: Range): seq<Range> {
    if out == [] || r.start > Last(out).end then out + [r]
    else Front(out) + [Range(Last(out).start, Max(Last(out).end, r.end))]
  }

  function Joined(rs: seq<Range>): seq<Range> {
    if rs == [] then [] else JoinNext(Joined(Front(rs)), Last(rs))
  }

  function EditsFor(rs: seq<Range>): (edits: seq<Edit>)
    ensures |edits| == |rs|
  {
    if rs == [] then [] else [Edit(rs[0].start, rs[0].end, MARKER)] + EditsFor(rs[1..])
  }

  predicate InText(rs: seq<Range>, size: nat) {
    forall i :: 0 <= i < |rs| ==> 0 <= rs[i].start < rs[i].end <= size
  }

  // ----- The per-character specification -----

  predicate Hidden(rs: seq<Range>, p: int) {
    exists i :: 0 <= i < |rs| && rs[i].start <= p < rs[i].end
  }

  /** Visible characters stay; the first character of each maximal hidden run becomes one marker. */
  function Masked(text: string, rs: seq<Range>, i: nat): string
    requires i <= |text|
    decreases |text| - i
  {
    if i == |text| then ""
    else
      (if !Hidden(rs, i) then [text[i]]
       else if i > 0 && Hidden(rs, i - 1) then ""
       else "[REDACTED]")
      + Masked(text, rs, i + 1)
  }

  // ----- The program -----

  method RedactSpans(text: string, spans: seq<Range>, truncated: bool) returns (result: string)
    requires InText(spans, |text|)
    ensures result == Masked(text, spans, 0) + (if truncated then "[TRUNCATED]" else "")
  {
    if spans == [] {
      MaskedGap(text, spans, 0, |text|);
      assert text[0..|text|] + "" == text;
      return if truncated then text + TRUNCATED else text;
    }
    var merged := JoinSpans(Sort(spans, ByRange));
    SplicedIsMasked(text, spans);
    var redacted := Splice(text, EditsFor(merged));
    result := if truncated then redacted + TRUNCATED else redacted;
    assert redacted + "" == redacted;
  }

  method JoinSpans(ordered: seq<Range>) returns (merged: seq<Range>)
    ensures merged == Joined(ordered)
  {
    merged := [];
    for k := 0 to |ordered|
      invariant merged == Joined(ordered[..k])
    {
      assert Front(ordered[..k + 1]) == ordered[..k];
      var r := ordered[k];
      if merged == [] || r.start > merged[|merged| - 1].end {
        merged := merged + [r];
      } else {
        var last := merged[|merged| - 1];
        merged := merged[|merged| - 1 := Range(last.start, Max(last.end, r.end))];
      }
    }
    assert ordered[..|ordered|] == ordered;
  }

  // ----- Joining -----

  /** Non-empty ranges in order with at least one character between neighbours. */
  ghost predicate Apart(rs: seq<Range>) {
    && (forall i :: 0 <= i < |rs| ==> rs[i].start < rs[i].end)
    && (forall i, j :: 0 <= i < j < |rs| ==> rs[i].end < rs[j].start)
  }

  lemma OrderedIsReady(spans: seq<Range>, size: nat)
    requires InText(spans, size)
    ensures var s := Sort(spans, ByRange); InText(s, size) && SortedByStart(s)
    ensures forall p :: Hidden(Sort(spans, ByRange), p) <==> Hidden(spans, p)
  {
    var s := Sort(spans, ByRange);
    SortKeepsMembers(spans, ByRange);
    SortSorts(spans, ByRange);
    forall i | 0 <= i < |s| ensures 0 <= s[i].start < s[i].end <= size {
      assert s[i] in spans;
    }
    forall i, j | 0 <= i < j < |s| ensures s[i].start <= s[j].start {
      assert ByRange(s[i], s[j]);
    }
    forall p ensures Hidden(s, p) <==> Hidden(spans, p) {
      SameHidden(s, spans, p);
      SameHidden(spans, s, p);
    }
  }

  lemma SameHidden(a: seq<Range>, b: seq<Range>, p: int)
    requires forall r :: r in a ==> r in b
    ensures Hidden(a, p) ==> Hidden(b, p)
  {
    if i :| 0 <= i < |a| && a[i].start <= p < a[i].end {
      assert a[i] in b;
    }
  }

  lemma HiddenAppend(rs: seq<Range>, r: Range, p: int)
    ensures Hidden(rs + [r], p) <==> Hidden(rs, p) || r.start <= p < r.end
  {
    if i :| 0 <= i < |rs| && rs[i].start <= p < rs[i].end {
      assert (rs + [r])[i] == rs[i];
    }
    assert (rs + [r])[|rs|] == r;
  }

  lemma {:induction false} JoinedKeeps(rs: seq<Range>, size: nat)
    requires InText(rs, size) && SortedByStart(rs)
    ensures Apart(Joined(rs)) && InText(Joined(rs), size)
    ensures rs != [] ==> Joined(rs) != [] && Last(Joined(rs)).start <= Last(rs).start
    ensures forall p :: Hidden(Joined(rs), p) <==> Hidden(rs, p)
  {
    if rs == [] {
    } else {
      var front, r := Front(rs), Last(rs);
      FrontStaysReady(rs, size);
      JoinedKeeps(front, size);
      JoinNextKeeps(Joined(front), r, size);
      forall p ensures Hidden(Joined(rs), p) <==> Hidden(rs, p) {
        HiddenFront(rs, p);
        JoinNextHides(Joined(front), r, p);
      }
    }
  }

  lemma FrontStaysReady(rs: seq<Range>, size: nat)
    requires rs != [] && InText(rs, size) && SortedByStart(rs)
    ensures InText(Front(rs), size) && SortedByStart(Front(rs))
    ensures 0 <= Last(rs).start < Last(rs).end <= size
    ensures Front(rs) != [] ==> Last(Front(rs)).start <= Last(rs).start
  {
  }

  lemma HiddenFront(rs: seq<Range>, p: int)
    requires rs != []
    ensures Hidden(rs, p) <==> Hidden(Front(rs), p) || Last(rs).start <= p < Last(rs).end
  {
    assert rs == Front(rs) + [Last(rs)];
    HiddenAppend(Front(rs), Last(rs), p);
  }

  lemma JoinNextKeeps(out: seq<Range>, r: Range, size: nat)
    requires Apart(out) && InText(out, size) && 0 <= r.start < r.end <= size
    requires out != [] ==> Last(out).start <= r.start
    ensures var next := JoinNext(out, r);
            Apart(next) && InText(next, size) && next != [] && Last(next).start <= r.start
  {
    forall i | 0 <= i < |out| - 1 ensures out[i].end < out[|out| - 1].start {
    }
  }

  lemma JoinNextHides(out: seq<Range>, r: Range, p: int)
    requires Apart(out) && (out != [] ==> Last(out).start <= r.start) && r.start < r.end
    ensures Hidden(JoinNext(out, r), p) <==> Hidden(out, p) || r.start <= p < r.end
  {
    if out == [] || r.start > Last(out).end {
      HiddenAppend(out, r, p);
    } else {
      assert out == Front(out) + [Last(out)];
      HiddenAppend(Front(out), Last(out), p);
      HiddenAppend(Front(out), Range(Last(out).start, Max(Last(out).end, r.end)), p);
    }
  }

  // ----- Splicing a joined list is masking -----

  lemma {:induction false} MaskedGap(text: string, rs: seq<Range>, i: nat, j: nat)
    requires i <= j <= |text| && forall p :: i <= p < j ==> !Hidden(rs, p)
    ensures Masked(text, rs, i) == text[i..j] + Masked(text, rs, j)
    decreases j - i
  {
    if i < j {
      assert !Hidden(rs, i);
      MaskedGap(text, rs, i + 1, j);
      TakeOne(text, i, j, Masked(text, rs, j));
    }
  }

  lemma TakeOne(text: string, i: nat, j: nat, rest: string)
    requires i < j <= |text|
    ensures [text[i]] + (text[i + 1..j] + rest) == text[i..j] + rest
  {
  }

  /** Inside a hidden run nothing more is written. */
  lemma {:induction false} MaskedInside(text: string, rs: seq<Range>, i: nat, j: nat)
    requires 0 < i <= j <= |text| && forall p :: i - 1 <= p < j ==> Hidden(rs, p)
    ensures Masked(text, rs, i) == Masked(text, rs, j)
    decreases j - i
  {
    if i < j {
      assert Hidden(rs, i) && Hidden(rs, i - 1);
      MaskedInside(text, rs, i + 1, j);
    }
  }

  lemma MaskedRun(text: string, rs: seq<Range>, i: nat, j: nat)
    requires i < j <= |text| && (forall p :: i <= p < j ==> Hidden(rs, p)) && !Hidden(rs, i - 1)
    ensures Masked(text, rs, i) == MARKER + Masked(text, rs, j)
  {
    assert Hidden(rs, i);
    MaskedInside(text, rs, i + 1, j);
  }

  /** The ranges from `k` on hide exactly what `rs` hides from `cursor` on. */
  ghost predicate Remaining(rs: seq<Range>, later: seq<Range>, cursor: int) {
    forall p :: p >= cursor ==> (Hidden(rs, p) <==> Hidden(later, p))
  }

  lemma HiddenTail(rs: seq<Range>, p: int)
    requires rs != [] && p >= rs[0].end
    ensures Hidden(rs, p) <==> Hidden(rs[1..], p)
  {
    if i :| 0 <= i < |rs| && rs[i].start <= p < rs[i].end {
      assert i > 0 && rs[1..][i - 1] == rs[i];
    }
    if i :| 0 <= i < |rs[1..]| && rs[1..][i].start <= p < rs[1..][i].end {
      assert rs[i + 1] == rs[1..][i];
    }
  }

  lemma NothingBefore(rs: seq<Range>, p: int)
    requires Apart(rs) && rs != [] && p < rs[0].start
    ensures !Hidden(rs, p)
  {
    forall i | 0 <= i < |rs| ensures p < rs[i].start {
      assert i > 0 ==> rs[0].end < rs[i].start;
    }
  }

  lemma {:induction false} SplicedFrom(text: string, rs: seq<Range>, later: seq<Range>, cursor: nat)
    requires Apart(later) && InText(later, |text|) && Remaining(rs, later, cursor)
    requires cursor <= |text| && (later != [] ==> cursor <= later[0].start)
    requires later != [] && later[0].start == cursor ==> !Hidden(rs, cursor - 1)
    ensures Fits(EditsFor(later), cursor, |text|)
    ensures Spliced(text, EditsFor(later), cursor) == Masked(text, rs, cursor)
    decreases |later|
  {
    if later == [] {
      MaskedGap(text, rs, cursor, |text|);
      assert text[cursor..|text|] + "" == text[cursor..];
    } else {
      var r := later[0];
      MaskedUpTo(text, rs, later, cursor);
      TailStaysApart(later, |text|);
      SplicedFrom(text, rs, later[1..], r.end);
    }
  }

  lemma TailStaysApart(later: seq<Range>, size: nat)
    requires later != [] && Apart(later) && InText(later, size)
    ensures Apart(later[1..]) && InText(later[1..], size)
    ensures |later| > 1 ==> later[0].end < later[1].start
  {
  }

  /** One gap and one marker, and what remains after them. */
  lemma MaskedUpTo(text: string, rs: seq<Range>, later: seq<Range>, cursor: nat)
    requires Apart(later) && InText(later, |text|) && Remaining(rs, later, cursor)
    requires later != [] && cursor <= later[0].start && (later[0].start == cursor ==> !Hidden(rs, cursor - 1))
    ensures var r := later[0];
            && Masked(text, rs, cursor) == text[cursor..r.start] + MARKER + Masked(text, rs, r.end)
            && Remaining(rs, later[1..], r.end)
  {
    var r := later[0];
    forall p | cursor <= p < r.start ensures !Hidden(rs, p) {
      NothingBefore(later, p);
    }
    forall p | r.start <= p < r.end ensures Hidden(rs, p) {
      assert Hidden(later, p);
    }
    MaskedGap(text, rs, cursor, r.start);
    MaskedRun(text, rs, r.start, r.end);
    forall p | p >= r.end ensures Hidden(rs, p) <==> Hidden(later[1..], p) {
      HiddenTail(later, p);
    }
    assert text[cursor..r.start] + (MARKER + Masked(text, rs, r.end))
        == text[cursor..r.start] + MARKER + Masked(text, rs, r.end);
  }

  lemma SplicedIsMasked(text: string, spans: seq<Range>)
    requires InText(spans, |text|)
    ensures var edits := EditsFor(Joined(Sort(spans, ByRange)));
            Fits(edits, 0, |text|) && Spliced(text, edits, 0) == Masked(text, spans, 0)
  {
    var ordered := Sort(spans, ByRange);
    OrderedIsReady(spans, |text|);
    JoinedKeeps(ordered, |text|);
    forall i | 0 <= i < |spans| ensures 0 <= spans[i].start {
    }
    assert !Hidden(spans, -1);
    SplicedFrom(text, spans, Joined(ordered), 0);
  }
}
