/**
 The boundary-aware splitter: `find_split_position` picks where the next chunk ends,
 preferring to end it just after the last separator near the size limit, and
 `split_text_into_chunks` applies it to what is left of the text until nothing is.
 */
module Splitter {
  import opened Strings

  /** The default half-width of the search window around the size limit. */
  const Threshold: nat := 100

  /** `max(0, chunk_size - threshold)`: where the search window starts. */
  function WindowStart(chunkSize: nat, threshold: nat): nat
  {
    if chunkSize < threshold then 0 else chunkSize - threshold
  }

  /** `min(len(text), chunk_size + threshold)`: where the search window ends (exclusive). */
  function WindowEnd(text: string, chunkSize: nat, threshold: nat): nat
  {
    if |text| < chunkSize + threshold then |text| else chunkSize + threshold
  }

  /** An occurrence of `sep` at `i` that lies wholly inside the search window. */
  predicate InWindow(text: string, chunkSize: nat, sep: string, threshold: nat, i: int)
  {
    WindowStart(chunkSize, threshold) <= i &&
    i + |sep| <= WindowEnd(text, chunkSize, threshold) &&
    OccursAt(text, sep, i)
  }

  /** A non-empty separator occurs somewhere wholly inside the search window. */
  ghost predicate SeparatorInWindow(text: string, chunkSize: nat, sep: string, threshold: nat)
  {
    sep != [] && exists i :: InWindow(text, chunkSize, sep, threshold, i)
  }

  /**
   `find_split_position(text, chunk_size, separator, threshold)`: the length of the next chunk.
   Text that fits is taken whole; otherwise the chunk ends just after the last separator lying
   wholly inside the window `[chunk_size - threshold, chunk_size + threshold)` (clipped to the
   text), and without one, or with an empty separator, it is cut at exactly `chunk_size`.
   The search of the window is written as a search of the text that stops at the window's
   bounds; `FindSplitPositionIsRFind` shows it is `rfind` on the sliced window.
   */
  function FindSplitPosition(text: string, chunkSize: nat, sep: string, threshold: nat): (p: nat)
    ensures |text| <= chunkSize ==> p == |text|
    ensures p <= |text| && p <= chunkSize + threshold
    ensures |text| > 0 && chunkSize > 0 ==> p > 0
  {
    if |text| <= chunkSize then |text|
    else if sep == [] then chunkSize
    else
      var last := LastOccurrenceUpTo(text, sep, WindowEnd(text, chunkSize, threshold) - |sep|);
      if last >= WindowStart(chunkSize, threshold) then last + |sep| else chunkSize
  }

  /**
   When the text does not fit: if a separator lies wholly inside the window, the chunk ends
   just after the last such separator, so the separator stays with the chunk before the cut;
   otherwise (no separator in the window, or an empty separator) the cut is at exactly `chunkSize`.
   */
  lemma FindSplitPositionCut(text: string, chunkSize: nat, sep: string, threshold: nat)
    requires |text| > chunkSize
    ensures var p := FindSplitPosition(text, chunkSize, sep, threshold);
            (SeparatorInWindow(text, chunkSize, sep, threshold) ==>
               WindowStart(chunkSize, threshold) + |sep| <= p <= WindowEnd(text, chunkSize, threshold) &&
               OccursAt(text, sep, p - |sep|) &&
               forall i :: p - |sep| < i ==> !InWindow(text, chunkSize, sep, threshold, i)) &&
            (!SeparatorInWindow(text, chunkSize, sep, threshold) ==> p == chunkSize)
  {
    if sep != [] {
      var start, k := WindowStart(chunkSize, threshold), WindowEnd(text, chunkSize, threshold) - |sep|;
      var last := LastOccurrenceUpTo(text, sep, k);
      if last >= start {
        assert InWindow(text, chunkSize, sep, threshold, last);
      }
    }
  }

  /** Occurrences in a slice of the text are occurrences in the text that fit inside the slice. */
  lemma OccursInSlice(text: string, start: nat, end: nat, sep: string, j: int)
    requires start <= end <= |text|
    ensures OccursAt(text[start..end], sep, j) <==>
            0 <= j && start + j + |sep| <= end && OccursAt(text, sep, start + j)
  {
    if 0 <= j && start + j + |sep| <= end {
      var w, u := text[start..end][j..j + |sep|], text[start + j..start + j + |sep|];
      forall t | 0 <= t < |sep|
        ensures w[t] == u[t]
      {
      }
      assert w == u;
    }
  }

  /**
   The split position is the source's own formula: `search_start + last_sep + len(separator)`
   where `last_sep = text[search_start:search_end].rfind(separator)` when that finds something,
   and `chunk_size` when it does not.
   */
  lemma FindSplitPositionIsRFind(text: string, chunkSize: nat, sep: string, threshold: nat)
    requires |text| > chunkSize && sep != []
    ensures var start := WindowStart(chunkSize, threshold);
            var lastSep := RFind(text[start..WindowEnd(text, chunkSize, threshold)], sep);
            FindSplitPosition(text, chunkSize, sep, threshold)
              == if lastSep != -1 then start + lastSep + |sep| else chunkSize
  {
    var start, end := WindowStart(chunkSize, threshold), WindowEnd(text, chunkSize, threshold);
    var window := text[start..end];
    var lastSep := RFind(window, sep);
    var last := LastOccurrenceUpTo(text, sep, end - |sep|);
    if last >= start {
      OccursInSlice(text, start, end, sep, last - start);
      assert lastSep >= last - start;
      OccursInSlice(text, start, end, sep, lastSep);
      assert lastSep == last - start;
    } else if lastSep != -1 {
      OccursInSlice(text, start, end, sep, lastSep);
      assert false;
    }
  }

  /** The chunks `split_text_into_chunks` produces, as a recursive definition. */
  function Chunks(text: string, chunkSize: nat, sep: string): seq<string>
    requires chunkSize > 0
    decreases |text|
  {
    if |text| == 0 then []
    else
      var p := FindSplitPosition(text, chunkSize, sep, Threshold);
      [text[..p]] + Chunks(text[p..], chunkSize, sep)
  }

  /** Concatenating the chunks in order gives back the text; empty text gives no chunks. */
  lemma {:induction false} ChunksCover(text: string, chunkSize: nat, sep: string)
    requires chunkSize > 0
    ensures Concat(Chunks(text, chunkSize, sep)) == text
    ensures Chunks(text, chunkSize, sep) == [] <==> text == []
    decreases |text|
  {
    if |text| > 0 {
      var p := FindSplitPosition(text, chunkSize, sep, Threshold);
      var cs, rest := Chunks(text, chunkSize, sep), Chunks(text[p..], chunkSize, sep);
      ChunksCover(text[p..], chunkSize, sep);
      assert cs == [text[..p]] + rest;
      assert cs[0] == text[..p] && cs[1..] == rest;
      assert Concat(cs) == text[..p] + Concat(rest);
      assert text[..p] + text[p..] == text;
    }
  }

  /** `c` ends with the (non-empty) separator. */
  predicate EndsWithSeparator(c: string, sep: string)
  {
    sep != [] && |sep| <= |c| && c[|c| - |sep|..] == sep
  }

  /**
   The shape of one chunk: non-empty and at most `chunkSize + Threshold` long, and either it
   ends with a separator found in the search window, or it was cut at exactly `chunkSize`,
   or it is the last chunk and no longer than `chunkSize`.
   */
  predicate WellShaped(c: string, isLast: bool, chunkSize: nat, sep: string)
  {
    0 < |c| <= chunkSize + Threshold &&
    ((EndsWithSeparator(c, sep) && WindowStart(chunkSize, Threshold) + |sep| <= |c|) ||
     |c| == chunkSize ||
     (isLast && |c| <= chunkSize))
  }

  /** Every chunk of `cs` is well shaped, the last one judged as the last. */
  predicate AllWellShaped(cs: seq<string>, chunkSize: nat, sep: string)
  {
    forall i :: 0 <= i < |cs| ==> WellShaped(cs[i], i == |cs| - 1, chunkSize, sep)
  }

  /** A well-shaped chunk in front of well-shaped chunks keeps them all well shaped. */
  lemma AllWellShapedCons(c: string, rest: seq<string>, chunkSize: nat, sep: string)
    requires WellShaped(c, rest == [], chunkSize, sep) && AllWellShaped(rest, chunkSize, sep)
    ensures AllWellShaped([c] + rest, chunkSize, sep)
  {
    var cs := [c] + rest;
    forall i | 0 <= i < |cs|
      ensures WellShaped(cs[i], i == |cs| - 1, chunkSize, sep)
    {
      if i > 0 {
        assert cs[i] == rest[i - 1];
      }
    }
  }

  lemma {:induction false} ChunksShape(text: string, chunkSize: nat, sep: string)
    requires chunkSize > 0
    ensures AllWellShaped(Chunks(text, chunkSize, sep), chunkSize, sep)
    decreases |text|
  {
    if |text| > 0 {
      var p := FindSplitPosition(text, chunkSize, sep, Threshold);
      var rest := Chunks(text[p..], chunkSize, sep);
      assert Chunks(text, chunkSize, sep) == [text[..p]] + rest;
      ChunksShape(text[p..], chunkSize, sep);
      ChunksCover(text[p..], chunkSize, sep);
      if |text| <= chunkSize {
        assert text[p..] == [];
      } else if SeparatorInWindow(text, chunkSize, sep, Threshold) {
        FindSplitPositionCut(text, chunkSize, sep, Threshold);
        assert text[..p][p - |sep|..] == text[p - |sep|..p];
        assert EndsWithSeparator(text[..p], sep);
      } else {
        FindSplitPositionCut(text, chunkSize, sep, Threshold);
      }
      assert WellShaped(text[..p], rest == [], chunkSize, sep);
      AllWellShapedCons(text[..p], rest, chunkSize, sep);
    }
  }

  /**
   One step of the chunking loop: if `done` are the chunks of the text before `pos`, then
   adding the next chunk, which is non-empty, leaves the chunks of the text before the new position.
   */
  lemma ChunksStep(text: string, chunkSize: nat, sep: string, pos: nat, p: nat, done: seq<string>)
    requires chunkSize > 0 && pos < |text|
    requires p == FindSplitPosition(text[pos..], chunkSize, sep, Threshold)
    requires done + Chunks(text[pos..], chunkSize, sep) == Chunks(text, chunkSize, sep)
    ensures 0 < p <= |text| - pos
    ensures (done + [text[pos..pos + p]]) + Chunks(text[pos + p..], chunkSize, sep) == Chunks(text, chunkSize, sep)
  {
    var rest := text[pos..];
    assert Chunks(rest, chunkSize, sep) == [rest[..p]] + Chunks(rest[p..], chunkSize, sep);
    var chunk, later := text[pos..pos + p], Chunks(text[pos + p..], chunkSize, sep);
    assert rest[..p] == chunk;
    assert rest[p..] == text[pos + p..];
    assert done + ([chunk] + later) == (done + [chunk]) + later;
  }

  /** Once the whole text is consumed, the chunks gathered are all the chunks. */
  lemma ChunksDone(text: string, chunkSize: nat, sep: string, done: seq<string>)
    requires chunkSize > 0
    requires done + Chunks(text[|text|..], chunkSize, sep) == Chunks(text, chunkSize, sep)
    ensures done == Chunks(text, chunkSize, sep)
  {
    assert text[|text|..] == [];
    assert done + [] == done;
  }

  /** `split_text_into_chunks(text, chunk_size, separator)`. */
  method SplitTextIntoChunks(text: string, chunkSize: nat, sep: string) returns (chunks: seq<string>)
    requires chunkSize > 0
    ensures chunks == Chunks(text, chunkSize, sep)
  {
    chunks := [];
    var pos := 0;
    while pos < |text|
      invariant 0 <= pos <= |text|
      invariant chunks + Chunks(text[pos..], chunkSize, sep) == Chunks(text, chunkSize, sep)
      decreases |text| - pos
    {
      var splitPos := FindSplitPosition(text[pos..], chunkSize, sep, Threshold);
      ChunksStep(text, chunkSize, sep, pos, splitPos, chunks);
      chunks := chunks + [text[pos..pos + splitPos]];
      pos := pos + splitPos;
    }
    ChunksDone(text, chunkSize, sep, chunks);
  }
}
