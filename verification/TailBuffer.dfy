/**
 The buffer that holds back the end of a streamed answer so that no token is cut in two
 (streaming/tail_buffer.py).

 The outcomes of its two regular-expression searches are inputs here, so every result holds whatever they are.
 The stream is conserved in every run; the promise that no token is emitted in part is not kept, and
 `TokenIsCutIff` says exactly when it fails.
 */
module TailBuffer {

  const TAIL_WINDOW_CHARS := 128

  const MAX_BUFFER_CHARS := 2048

  const MAX_BUFFER_AGE_MS := 1000

  datatype Phase = Collecting | Matching | Flushing | Terminated

  /** Whether a whole token, and whether a token without its end, was found near the end of the buffer. */
  datatype Searches = Searches(wholeToken: bool, partialAtEnd: bool)

  /** `payload` is the formatted text of an event that is not a text delta. */
  datatype Event = TextDelta(text: string) | Other(payload: string)

  function FlushWanted(buffer: string, lastFlush: int, now: int, found: Searches): bool {
    || (lastFlush > 0 && now - lastFlush >= MAX_BUFFER_AGE_MS)
    || |buffer| >= MAX_BUFFER_CHARS
    || found.wholeToken
    || !found.partialAtEnd
  }

  /** How many characters a flush gives out. */
  function SafeEnd(buffer: string): nat {
    if |buffer| <= TAIL_WINDOW_CHARS then 0 else |buffer| - TAIL_WINDOW_CHARS
  }

  class Buffer {
    var activeBuffer: string
    var tailWindow: string
    var phase: Phase
    var lastFlushAt: int

    constructor (now: int)
      ensures activeBuffer == "" && tailWindow == "" && phase == Collecting && lastFlushAt == now
    {
      activeBuffer, tailWindow, phase, lastFlushAt := "", "", Collecting, now;
    }

    /** Returns the chunk that is given out, empty if none. */
    method Ingest(event: Event, now: int, found: Searches) returns (chunk: string)
      modifies this
      ensures old(phase) == Terminated ==>
                chunk == "" && activeBuffer == old(activeBuffer) && phase == Terminated
      ensures old(phase) != Terminated && event.Other? ==>
                chunk == event.payload && activeBuffer == old(activeBuffer) && phase == old(phase)
      ensures old(phase) == Terminated || event.Other? ==>
                lastFlushAt == old(lastFlushAt) && tailWindow == old(tailWindow)
      ensures old(phase) != Terminated && event.TextDelta? ==>
                var (s, c) := Step(Held(old(activeBuffer), old(lastFlushAt)), event.text, now, found);
                Held(activeBuffer, lastFlushAt) == s && chunk == c && phase == Collecting
                && tailWindow == if FlushWanted(old(activeBuffer) + event.text, old(lastFlushAt), now, found)
                                 then activeBuffer else old(tailWindow)
    {
      if phase == Terminated {
        return "";
      }
      if event.Other? {
        return event.payload;
      }
      activeBuffer := activeBuffer + event.text;
      phase := Matching;
      if lastFlushAt > 0 && now - lastFlushAt >= MAX_BUFFER_AGE_MS {
        chunk := Flush(now);
        return;
      }
      if |activeBuffer| >= MAX_BUFFER_CHARS {
        chunk := Flush(now);
        return;
      }
      if found.wholeToken {
        chunk := Flush(now);
        return;
      }
      if found.partialAtEnd {
        phase := Collecting;
        return "";
      }
      chunk := Flush(now);
    }

    method Flush(now: int) returns (chunk: string)
      modifies this
      ensures chunk == old(activeBuffer)[..SafeEnd(old(activeBuffer))]
      ensures activeBuffer == tailWindow == old(activeBuffer)[SafeEnd(old(activeBuffer))..]
      ensures lastFlushAt == now && phase == Collecting
    {
      phase := Flushing;
      chunk := "";
      if |activeBuffer| <= TAIL_WINDOW_CHARS {
        tailWindow := activeBuffer;
      } else {
        var safeEnd := |activeBuffer| - TAIL_WINDOW_CHARS;
        chunk := activeBuffer[..safeEnd];
        tailWindow := activeBuffer[safeEnd..];
        activeBuffer := tailWindow;
      }
      lastFlushAt := now;
      phase := Collecting;
    }

    method Terminate()
      modifies this
      ensures phase == Terminated && activeBuffer == old(activeBuffer)
      ensures tailWindow == old(tailWindow) && lastFlushAt == old(lastFlushAt)
    {
      phase := Terminated;
    }

    method FlushRemaining() returns (remaining: string)
      modifies this
      ensures remaining == old(activeBuffer) && activeBuffer == tailWindow == ""
      ensures phase == old(phase) && lastFlushAt == old(lastFlushAt)
    {
      remaining := activeBuffer;
      activeBuffer := "";
      tailWindow := "";
    }
  }

  // ----- Runs of text deltas -----

  datatype Held = Held(buffer: string, lastFlush: int)

  function Step(h: Held, delta: string, now: int, found: Searches): (Held, string) {
    var buffer := h.buffer + delta;
    if FlushWanted(buffer, h.lastFlush, now, found)
    then (Held(buffer[SafeEnd(buffer)..], now), buffer[..SafeEnd(buffer)])
    else (Held(buffer, h.lastFlush), "")
  }

  datatype Feed = Feed(delta: string, now: int, found: Searches)

  /** All text received so far. */
  function Received(run: seq<Feed>): string {
    if run == [] then "" else Received(run[..|run| - 1]) + run[|run| - 1].delta
  }

  function HeldAfter(start: int, run: seq<Feed>): Held {
    if run == [] then Held("", start)
    else
      var f := run[|run| - 1];
      Step(HeldAfter(start, run[..|run| - 1]), f.delta, f.now, f.found).0
  }

  /** All text given out so far. */
  function Emitted(start: int, run: seq<Feed>): string {
    if run == [] then ""
    else
      var f := run[|run| - 1];
      Emitted(start, run[..|run| - 1]) + Step(HeldAfter(start, run[..|run| - 1]), f.delta, f.now, f.found).1
  }

  /** Nothing is lost, duplicated or reordered: what was given out and what is held is what was received. */
  lemma {:induction false} StreamIsConserved(start: int, run: seq<Feed>)
    ensures Emitted(start, run) + HeldAfter(start, run).buffer == Received(run)
    ensures |HeldAfter(start, run).buffer| < 2048
  {
    if run == [] {
    } else {
      var front, f := run[..|run| - 1], run[|run| - 1];
      StreamIsConserved(start, front);
      StepConserves(HeldAfter(start, front), f.delta, f.now, f.found, Emitted(start, front), Received(front));
    }
  }

  lemma StepConserves(h: Held, delta: string, now: int, found: Searches, emitted: string, received: string)
    requires emitted + h.buffer == received
    ensures var (s, c) := Step(h, delta, now, found);
            (emitted + c) + s.buffer == received + delta && |s.buffer| < MAX_BUFFER_CHARS
  {
    var buffer := h.buffer + delta;
    var n := SafeEnd(buffer);
    assert (emitted + h.buffer) + delta == emitted + buffer;
    assert (emitted + buffer[..n]) + buffer[n..] == emitted + buffer;
    assert (emitted + "") + buffer == emitted + buffer;
  }

  /** The `k`-th delta leads to a flush. */
  predicate Flushes(start: int, run: seq<Feed>, k: nat)
    requires k < |run|
  {
    var h := HeldAfter(start, run[..k]);
    FlushWanted(h.buffer + run[k].delta, h.lastFlush, run[k].now, run[k].found)
  }

  /** When text was last given out before the `k`-th delta, or the start of the stream. */
  function LastFlushTime(start: int, run: seq<Feed>, k: nat): int
    requires k <= |run|
  {
    if k == 0 then start else if Flushes(start, run, k - 1) then run[k - 1].now else LastFlushTime(start, run, k - 1)
  }

  lemma {:induction false} HeldSince(start: int, run: seq<Feed>, k: nat)
    requires k <= |run|
    ensures HeldAfter(start, run[..k]).lastFlush == LastFlushTime(start, run, k)
  {
    if k == 0 {
      assert run[..0] == [];
    } else {
      assert run[..k][..k - 1] == run[..k - 1];
      HeldSince(start, run, k - 1);
    }
  }

  /**
   In every run, text is held back by a delta exactly if a token without its end, and no whole one, was found near the
   end of fewer than 2048 characters received and not given out, and the last flush, on a clock that has started, is
   less than a second ago.
   */
  lemma HeldBackIff(start: int, run: seq<Feed>, k: nat)
    requires k < |run|
    ensures !Flushes(start, run, k) <==>
            && run[k].found.partialAtEnd && !run[k].found.wholeToken
            && |Received(run[..k + 1])| - |Emitted(start, run[..k])| < 2048
            && (LastFlushTime(start, run, k) <= 0 || run[k].now - LastFlushTime(start, run, k) < 1000)
  {
    HeldSince(start, run, k);
    StreamIsConserved(start, run[..k]);
    assert run[..k + 1][..k] == run[..k];
  }

  /** A boundary between two chunks: everything before position `b` was given out by the `k`-th delta. */
  ghost predicate IsBoundary(start: int, run: seq<Feed>, b: nat) {
    exists k :: 0 <= k <= |run| && |Emitted(start, run[..k])| == b
  }

  /** Each flush gives out all but the last 128 characters received, unless more is out already. */
  lemma {:induction false} FlushCuts(start: int, run: seq<Feed>, k: nat)
    requires k < |run|
    ensures var before, after, n := |Emitted(start, run[..k])|, |Emitted(start, run[..k + 1])|, |Received(run[..k + 1])|;
            after == if Flushes(start, run, k) && n - TAIL_WINDOW_CHARS > before then n - TAIL_WINDOW_CHARS else before
  {
    assert run[..k + 1][..k] == run[..k];
    StreamIsConserved(start, run[..k]);
  }

  /** The `k`-th delta cuts the stream inside `i..j`. */
  ghost predicate CutsInside(start: int, run: seq<Feed>, i: nat, j: nat, k: nat)
    requires k < |run|
  {
    Flushes(start, run, k) && i < |Received(run[..k + 1])| - TAIL_WINDOW_CHARS < j
  }

  lemma {:induction false} BoundaryComesFromAFlush(start: int, run: seq<Feed>, k: nat)
    requires k <= |run| && |Emitted(start, run[..k])| > 0
    ensures exists m :: 0 <= m < k && Flushes(start, run, m)
                     && |Emitted(start, run[..k])| == |Received(run[..m + 1])| - TAIL_WINDOW_CHARS
  {
    if k == 0 {
    } else {
      FlushCuts(start, run, k - 1);
      if |Emitted(start, run[..k])| == |Emitted(start, run[..k - 1])| {
        BoundaryComesFromAFlush(start, run, k - 1);
      }
    }
  }

  lemma {:induction false} EmittedStaysBehind(start: int, run: seq<Feed>, k: nat)
    requires k <= |run|
    ensures |Emitted(start, run[..k])| == 0 || |Emitted(start, run[..k])| <= |Received(run[..k])| - TAIL_WINDOW_CHARS
  {
    if k == 0 {
      assert run[..0] == [];
    } else {
      assert run[..k][..k - 1] == run[..k - 1];
      EmittedStaysBehind(start, run, k - 1);
      FlushCuts(start, run, k - 1);
    }
  }

  /**
   The stretch `i..j` of the stream, for instance a token, is given out in two chunks exactly when some flush
   happens while the number of characters received exceeds `i` by more, and `j` by less, than the window.  A
   stretch of at most 128 characters is therefore never cut before all of it has arrived.
   */
  lemma TokenIsCutIff(start: int, run: seq<Feed>, i: nat, j: nat)
    requires i < j
    ensures (exists b :: i < b < j && IsBoundary(start, run, b))
       <==> (exists k :: 0 <= k < |run| && CutsInside(start, run, i, j, k))
    ensures j <= i + 128 ==>
              forall k :: 0 <= k < |run| && CutsInside(start, run, i, j, k) ==> j <= |Received(run[..k + 1])|
  {
    if b :| i < b < j && IsBoundary(start, run, b) {
      var k :| 0 <= k <= |run| && |Emitted(start, run[..k])| == b;
      BoundaryComesFromAFlush(start, run, k);
      var m :| 0 <= m < k && Flushes(start, run, m) && b == |Received(run[..m + 1])| - TAIL_WINDOW_CHARS;
      assert CutsInside(start, run, i, j, m);
    }
    if k :| 0 <= k < |run| && CutsInside(start, run, i, j, k) {
      FlushCuts(start, run, k);
      EmittedStaysBehind(start, run, k);
      assert run[..k + 1][..k] == run[..k];
      assert |Received(run[..k])| <= |Received(run[..k + 1])|;
      assert |Emitted(start, run[..k + 1])| == |Received(run[..k + 1])| - TAIL_WINDOW_CHARS;
      assert IsBoundary(start, run, |Emitted(start, run[..k + 1])|);
    }
  }

  /**
   A token can be cut by a single delta: in 200 characters with `[EMAIL_ADDRESS_1]` at position 70, the first
   chunk ends after `[E`.
   */
  lemma WholeTokenIsCut(start: int, now: int, text: string, found: Searches)
    requires |text| == 200 && text[70..87] == "[EMAIL_ADDRESS_1]" && !found.partialAtEnd
    ensures var chunk := Emitted(start, [Feed(text, now, found)]);
            chunk == text[..72] && chunk[70..] == "[E"
  {
    var run := [Feed(text, now, found)];
    assert run[..0] == [];
    assert "" + text == text;
    assert text[..72][70..] == text[70..87][..2];
  }
}
