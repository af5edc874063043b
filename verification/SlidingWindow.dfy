/**
 The bounded buffer that the firewall's rules are evaluated on (firewall/streaming.py), on decoded text.
 */
module SlidingWindow {

  function LastOf(text: string, n: nat): string {
    if |text| > n then text[|text| - n..] else text
  }

  class SlidingWindowDetector {
    const windowSize: nat
    var buffer: string

    /** Everything ingested since the last flush or reset. */
    ghost var stream: string

    ghost predicate Valid()
      reads this
    {
      buffer == LastOf(stream, windowSize)
    }

    constructor (windowSize: nat)
      ensures this.windowSize == windowSize && Valid() && stream == "" && buffer == ""
    {
      this.windowSize := windowSize;
      buffer, stream := "", "";
    }

    /** Returns the text the rules are evaluated on. */
    method Ingest(chunk: string) returns (evaluated: string)
      requires Valid()
      modifies this
      ensures Valid() && stream == old(stream) + chunk && evaluated == buffer
    {
      WindowStep(stream, chunk, windowSize);
      buffer := buffer + chunk;
      if |buffer| > windowSize {
        var excess := |buffer| - windowSize;
        buffer := buffer[excess..];
      }
      stream := stream + chunk;
      evaluated := buffer;
    }

    method Flush() returns (evaluated: string)
      requires Valid()
      modifies this
      ensures Valid() && evaluated == LastOf(old(stream), windowSize) && stream == "" && buffer == ""
    {
      evaluated := buffer;
      buffer, stream := "", "";
    }

    method Reset()
      modifies this
      ensures Valid() && stream == "" && buffer == ""
    {
      buffer, stream := "", "";
    }
  }

  /** Cutting the window after each chunk loses nothing that cutting once would keep. */
  lemma WindowStep(stream: string, chunk: string, n: nat)
    ensures LastOf(LastOf(stream, n) + chunk, n) == LastOf(stream + chunk, n)
  {
    var whole := stream + chunk;
    if |stream| > n {
      assert LastOf(stream, n) + chunk == whole[|stream| - n..];
    }
  }

  function Concat(chunks: seq<string>): string {
    if chunks == [] then "" else Concat(chunks[..|chunks| - 1]) + chunks[|chunks| - 1]
  }

  /** The buffer after a run of chunks. */
  function Buffered(chunks: seq<string>, n: nat): string {
    if chunks == [] then "" else LastOf(Buffered(chunks[..|chunks| - 1], n) + chunks[|chunks| - 1], n)
  }

  /** The buffer depends on the text only, not on how it was cut into chunks. */
  lemma {:induction false} ChunkingIsIrrelevant(chunks: seq<string>, n: nat)
    ensures Buffered(chunks, n) == LastOf(Concat(chunks), n)
  {
    if chunks == [] {
    } else {
      var front := chunks[..|chunks| - 1];
      ChunkingIsIrrelevant(front, n);
      WindowStep(Concat(front), chunks[|chunks| - 1], n);
    }
  }

  predicate OccursAt(text: string, i: int, pattern: string) {
    0 <= i <= |text| - |pattern| && text[i..i + |pattern|] == pattern
  }

  /** How many characters of the stream the buffer has lost. */
  function Dropped(chunks: seq<string>, n: nat): int {
    |Concat(chunks)| - |Buffered(chunks, n)|
  }

  /**
   An occurrence in the stream is whole in the buffer exactly when it starts within the last `n` characters.
   That is certain at the chunk that completes it if chunk and pattern exceed the window by at most one
   character together.
   */
  lemma OccurrenceIsSeenIff(chunks: seq<string>, n: nat, i: nat, pattern: string)
    requires chunks != [] && pattern != "" && OccursAt(Concat(chunks), i, pattern)
    ensures OccursAt(Buffered(chunks, n), i - Dropped(chunks, n), pattern) <==> |Concat(chunks)| - i <= n
    ensures |Concat(chunks[..|chunks| - 1])| < i + |pattern| && |chunks[|chunks| - 1]| + |pattern| <= n + 1 ==>
              |Concat(chunks)| - i <= n
  {
    ChunkingIsIrrelevant(chunks, n);
    var whole := Concat(chunks);
    var k := i - Dropped(chunks, n);
    if |whole| - i <= n {
      SliceOfLast(whole, n, i, |pattern|);
    }
  }

  lemma SliceOfLast(text: string, n: nat, i: nat, m: nat)
    requires i + m <= |text| && |text| - i <= n
    ensures var k := i - (|text| - |LastOf(text, n)|);
            0 <= k && k + m <= |LastOf(text, n)| && LastOf(text, n)[k..k + m] == text[i..i + m]
  {
  }

  /** With one character more, an occurrence completed by the chunk's first character has already lost its own first. */
  lemma WindowBoundIsTight(n: nat, before: string, chunk: string, pattern: string)
    requires |before| + 1 == |pattern| && |chunk| + |pattern| == n + 2 && chunk != ""
    requires (before + chunk)[..|pattern|] == pattern
    ensures Buffered([before, chunk], n) == (before + chunk)[1..]
  {
    assert [before, chunk][..1] == [before] && [before][..0] == [];
    assert "" + before == before;
    ChunkingIsIrrelevant([before, chunk], n);
    assert Concat([before]) == before;
  }
}
