/** Replacing ordered, disjoint ranges of a text in one left-to-right pass, and undoing it. */
module Splicing {

  datatype Edit = Edit(start: int, end: int, replacement: string)

  /** The edits lie in `text[cursor..size]`, in order, without sharing a character. */
  ghost predicate Fits(edits: seq<Edit>, cursor: int, size: int)
    decreases |edits|
  {
    if edits == [] then cursor <= size
    else cursor <= edits[0].start <= edits[0].end <= size && Fits(edits[1..], edits[0].end, size)
  }

  /** `text[cursor..]` with every edit carried out. */
  function Spliced(text: string, edits: seq<Edit>, cursor: nat): string
    requires Fits(edits, cursor, |text|)
    decreases |edits|
  {
    if edits == [] then text[cursor..]
    else
      var e := edits[0];
      text[cursor..e.start] + e.replacement + Spliced(text, edits[1..], e.end)
  }

  /** The program's loop: untouched gap, replacement, advance the cursor. */
  method Splice(text: string, edits: seq<Edit>) returns (result: string)
    requires Fits(edits, 0, |text|)
    ensures result == Spliced(text, edits, 0)
  {
    var parts := "";
    var cursor := 0;
    for k := 0 to |edits|
      invariant 0 <= cursor && Fits(edits[k..], cursor, |text|)
      invariant parts + Spliced(text, edits[k..], cursor) == Spliced(text, edits, 0)
    {
      var e := edits[k];
      assert edits[k..][1..] == edits[k + 1..];
      Regroup(parts, text[cursor..e.start], e.replacement, Spliced(text, edits[k + 1..], e.end));
      parts := parts + text[cursor..e.start];
      parts := parts + e.replacement;
      cursor := e.end;
    }
    result := parts + text[cursor..];
  }

  lemma Regroup(a: string, b: string, c: string, d: string)
    ensures a + (b + c + d) == (a + b + c) + d
  {
  }

  /**
   The edits that undo `edits`: each puts the original characters back at the place the replacement took.
   `shifted` is where `cursor` ends up in the new text.
   */
  function Undo(text: string, edits: seq<Edit>, cursor: nat, shifted: nat): (undo: seq<Edit>)
    requires Fits(edits, cursor, |text|)
    ensures |undo| == |edits|
    decreases |edits|
  {
    if edits == [] then []
    else
      var e := edits[0];
      var start := shifted + (e.start - cursor);
      var end := start + |e.replacement|;
      [Edit(start, end, text[e.start..e.end])] + Undo(text, edits[1..], e.end, end)
  }

  /** In the new text, every undo range holds exactly its edit's replacement. */
  ghost predicate Holds(out: string, edits: seq<Edit>, undo: seq<Edit>)
    requires |edits| == |undo|
  {
    forall k :: 0 <= k < |undo| ==> HoldsAt(out, edits[k], undo[k])
  }

  ghost predicate HoldsAt(out: string, e: Edit, u: Edit) {
    0 <= u.start <= u.end <= |out| && out[u.start..u.end] == e.replacement
  }

  lemma {:induction false} UndoFits(text: string, edits: seq<Edit>, cursor: nat, shifted: nat)
    requires Fits(edits, cursor, |text|)
    ensures Fits(Undo(text, edits, cursor, shifted), shifted, shifted + |Spliced(text, edits, cursor)|)
    decreases |edits|
  {
    if edits == [] {
    } else {
      var e := edits[0];
      UndoFits(text, edits[1..], e.end, shifted + (e.start - cursor) + |e.replacement|);
    }
  }

  lemma UndoHead(text: string, edits: seq<Edit>, cursor: nat, before: string)
    requires Fits(edits, cursor, |text|) && edits != []
    ensures var e, undo := edits[0], Undo(text, edits, cursor, |before|);
            var gap := text[cursor..e.start];
            && undo[0] == Edit(|before + gap|, |before + gap + e.replacement|, text[e.start..e.end])
            && undo[1..] == Undo(text, edits[1..], e.end, |before + gap + e.replacement|)
            && before + Spliced(text, edits, cursor)
               == before + gap + e.replacement + Spliced(text, edits[1..], e.end)
  {
    var e := edits[0];
    Regroup(before, text[cursor..e.start], e.replacement, Spliced(text, edits[1..], e.end));
  }

  /** Undoing restores the original text from `cursor` on. */
  lemma {:induction false} UndoRestores(text: string, edits: seq<Edit>, cursor: nat, before: string)
    requires Fits(edits, cursor, |text|)
    ensures Fits(Undo(text, edits, cursor, |before|), |before|, |before + Spliced(text, edits, cursor)|)
    ensures Spliced(before + Spliced(text, edits, cursor), Undo(text, edits, cursor, |before|), |before|) == text[cursor..]
    decreases |edits|
  {
    UndoFits(text, edits, cursor, |before|);
    if edits == [] {
      assert (before + text[cursor..])[|before|..] == text[cursor..];
    } else {
      var e, rest := edits[0], Spliced(text, edits[1..], edits[0].end);
      var before' := before + text[cursor..e.start] + e.replacement;
      UndoRestores(text, edits[1..], e.end, before');
      UndoHead(text, edits, cursor, before);
      UndoOne(before' + rest, Undo(text, edits, cursor, |before|), text, e, cursor, before, rest);
    }
  }

  /** One edit is undone if those behind it are. */
  lemma UndoOne(out: string, undo: seq<Edit>, text: string, e: Edit, cursor: nat, before: string, rest: string)
    requires cursor <= e.start <= e.end <= |text| && Fits(undo, |before|, |out|) && undo != []
    requires var gap := text[cursor..e.start];
             && out == before + gap + e.replacement + rest
             && undo[0] == Edit(|before + gap|, |before + gap + e.replacement|, text[e.start..e.end])
    requires Spliced(out, undo[1..], undo[0].end) == text[e.end..]
    ensures Spliced(out, undo, |before|) == text[cursor..]
  {
    SplicedHead(out, undo, |before|);
    UndoOneGap(text, e, cursor, before, rest);
  }

  lemma SplicedHead(text: string, edits: seq<Edit>, cursor: nat)
    requires Fits(edits, cursor, |text|) && edits != []
    ensures Spliced(text, edits, cursor)
         == text[cursor..edits[0].start] + edits[0].replacement + Spliced(text, edits[1..], edits[0].end)
  {
  }

  lemma UndoOneGap(text: string, e: Edit, cursor: nat, before: string, rest: string)
    requires cursor <= e.start <= e.end <= |text|
    ensures var gap := text[cursor..e.start];
            (before + gap + e.replacement + rest)[|before|..|before| + |gap|] + text[e.start..e.end] + text[e.end..]
            == text[cursor..]
  {
    var gap := text[cursor..e.start];
    assert (before + gap + e.replacement + rest)[|before|..|before| + |gap|] == gap;
  }

  lemma FirstHolds(text: string, edits: seq<Edit>, cursor: nat, before: string)
    requires Fits(edits, cursor, |text|) && edits != []
    ensures var e := edits[0];
            var before' := before + text[cursor..e.start] + e.replacement;
            && before + Spliced(text, edits, cursor) == before' + Spliced(text, edits[1..], e.end)
            && HoldsAt(before + Spliced(text, edits, cursor), e, Undo(text, edits, cursor, |before|)[0])
            && Undo(text, edits, cursor, |before|)[1..] == Undo(text, edits[1..], e.end, |before'|)
  {
    var e := edits[0];
    UndoHead(text, edits, cursor, before);
    MiddleOf(before + text[cursor..e.start], e.replacement, Spliced(text, edits[1..], e.end));
  }

  lemma MiddleOf(a: string, b: string, c: string)
    ensures (a + b + c)[|a|..|a| + |b|] == b
  {
  }

  lemma {:induction false} UndoHolds(text: string, edits: seq<Edit>, cursor: nat, before: string)
    requires Fits(edits, cursor, |text|)
    ensures Holds(before + Spliced(text, edits, cursor), edits, Undo(text, edits, cursor, |before|))
    decreases |edits|
  {
    if edits == [] {
    } else {
      var e := edits[0];
      FirstHolds(text, edits, cursor, before);
      UndoHolds(text, edits[1..], e.end, before + text[cursor..e.start] + e.replacement);
      HoldsCons(before + Spliced(text, edits, cursor), edits, Undo(text, edits, cursor, |before|));
    }
  }

  lemma HoldsCons(out: string, edits: seq<Edit>, undo: seq<Edit>)
    requires |edits| == |undo| > 0
    requires HoldsAt(out, edits[0], undo[0]) && Holds(out, edits[1..], undo[1..])
    ensures Holds(out, edits, undo)
  {
    forall k | 0 <= k < |undo| ensures HoldsAt(out, edits[k], undo[k]) {
      if k > 0 {
        assert HoldsAt(out, edits[1..][k - 1], undo[1..][k - 1]);
      }
    }
  }
}
