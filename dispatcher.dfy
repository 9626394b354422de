/**
 The request side of `generate.py`: the prompt and error text built around each chunk
 (`process_chunk`), and `generate`, which derives the effective chunk size, splits the text,
 submits the chunks in consecutive batches of `parallel_requests`, reads the results back in
 submission order and joins them with the separator.

 The generation service is a function `model` from the full prompt to an `Outcome`; the
 thread pool is a sequential loop, which is faithful because every result is read back
 through its future in the order the futures were submitted.
 */
module Dispatcher {
  import opened Strings
  import opened Splitter

  /** What one call to the generation service comes to: its text, or the text of the exception raised. */
  datatype Outcome = Success(text: string) | Failure(message: string)

  /** The arguments of one `executor.submit(process_chunk, model, prompt, chunk, index)` call. */
  datatype Job = Job(index: nat, chunk: string)

  /**
   What `generate` ends with: the string it returns, or the `ValueError` the thread pool
   raises when asked for no workers (`max_workers <= 0`).
   */
  datatype GenerateResult = Returned(value: string) | WorkerCountRejected

  const ChunkHeader: string := "\n\nText chunk to process:\n"
  const ErrorPrefix: string := "Error processing chunk: "
  const ChunkSizeError: string := "Error: Chunk size must be larger than prompt size"
  /** Characters reserved for the text `FinalPrompt` adds around the prompt and chunk. */
  const FormattingReserve: nat := 50

  /** The prompt sent for one chunk: the caller's prompt, the fixed header, then the chunk. */
  function FinalPrompt(prompt: string, chunk: string): string
  {
    prompt + ChunkHeader + chunk
  }

  /** The prompt sent can be taken apart again into the caller's prompt, the header and the chunk. */
  lemma FinalPromptParts(prompt: string, chunk: string)
    ensures var r := FinalPrompt(prompt, chunk);
            |r| == |prompt| + |ChunkHeader| + |chunk| &&
            r[..|prompt|] == prompt &&
            r[|prompt|..|prompt| + |ChunkHeader|] == ChunkHeader &&
            r[|prompt| + |ChunkHeader|..] == chunk
  {
  }

  /** Different chunks are never sent as the same prompt. */
  lemma FinalPromptInjective(prompt: string, c1: string, c2: string)
    requires FinalPrompt(prompt, c1) == FinalPrompt(prompt, c2)
    ensures c1 == c2
  {
    FinalPromptParts(prompt, c1);
    FinalPromptParts(prompt, c2);
  }

  /**
   `process_chunk(model, prompt, chunk, chunk_index)`: the service's answer to the chunk's
   prompt, or the error text standing in for it. The index only names the file the response
   is written to, so the result does not depend on it.
   */
  function ProcessChunk(model: string -> Outcome, prompt: string, chunk: string, chunkIndex: nat): string
  {
    match model(FinalPrompt(prompt, chunk))
    case Success(t) => t
    case Failure(m) => ErrorPrefix + m
  }

  /**
   On success a chunk's response is the service's text; on failure it is the fixed prefix
   followed by exactly the exception's text, so the failure can be read back from it.
   */
  lemma ProcessChunkOutcome(model: string -> Outcome, prompt: string, chunk: string, chunkIndex: nat)
    ensures var o := model(FinalPrompt(prompt, chunk));
            var r := ProcessChunk(model, prompt, chunk, chunkIndex);
            (o.Success? ==> r == o.text) &&
            (o.Failure? ==> |ErrorPrefix| <= |r| && r[..|ErrorPrefix|] == ErrorPrefix && r[|ErrorPrefix|..] == o.message)
  {
  }

  /** `chunk_size - len(prompt) - 50`. */
  function EffectiveChunkSize(prompt: string, chunkSize: int): int
  {
    chunkSize - |prompt| - FormattingReserve
  }

  function Min(a: int, b: int): int
  {
    if a < b then a else b
  }

  /** The responses `generate` collects: chunk `k` processed under index `k`, in chunk order. */
  function Responses(model: string -> Outcome, prompt: string, chunks: seq<string>): seq<string>
  {
    seq(|chunks|, k requires 0 <= k < |chunks| => ProcessChunk(model, prompt, chunks[k], k))
  }

  /** What `generate(prompt, text, separator, parallel_requests, chunk_size)` comes to. */
  function Generated(model: string -> Outcome, prompt: string, text: string, sep: string,
                     parallelRequests: int, chunkSize: int): GenerateResult
  {
    var size := EffectiveChunkSize(prompt, chunkSize);
    if size <= 0 then Returned(ChunkSizeError)
    else if parallelRequests <= 0 then WorkerCountRejected
    else Returned(Join(Responses(model, prompt, Chunks(text, size, sep)), sep))
  }

  /**
   `[executor.submit(process_chunk, model, prompt, chunk, start + j) for j, chunk in enumerate(batch)]`:
   the submissions for one batch, each tagged with its chunk's position in the whole list.
   */
  function Submissions(batch: seq<string>, start: nat): (jobs: seq<Job>)
  {
    seq(|batch|, j requires 0 <= j < |batch| => Job(start + j, batch[j]))
  }

  /** `[future.result() for future in futures]`: every job's response, in submission order. */
  function Results(model: string -> Outcome, prompt: string, jobs: seq<Job>): seq<string>
  {
    seq(|jobs|, t requires 0 <= t < |jobs| => ProcessChunk(model, prompt, jobs[t].chunk, jobs[t].index))
  }

  /** Submitting `chunks[a:b]` from position `a` continues the submissions of `chunks[:a]`. */
  lemma SubmissionsAppend(chunks: seq<string>, a: nat, b: nat)
    requires a <= b <= |chunks|
    ensures Submissions(chunks[..a], 0) + Submissions(chunks[a..b], a) == Submissions(chunks[..b], 0)
  {
    var x, y := Submissions(chunks[..a], 0) + Submissions(chunks[a..b], a), Submissions(chunks[..b], 0);
    forall k | 0 <= k < b
      ensures x[k] == y[k]
    {
      if k >= a {
        assert chunks[a..b][k - a] == chunks[..b][k];
      }
    }
    assert x == y;
  }

  /** Reading back two runs of futures one after the other gives their responses one after the other. */
  lemma ResultsAppend(model: string -> Outcome, prompt: string, j1: seq<Job>, j2: seq<Job>)
    ensures Results(model, prompt, j1 + j2) == Results(model, prompt, j1) + Results(model, prompt, j2)
  {
    var r1, r2 := Results(model, prompt, j1), Results(model, prompt, j2);
    var x, y := Results(model, prompt, j1 + j2), r1 + r2;
    assert |x| == |y|;
    forall k | 0 <= k < |x|
      ensures x[k] == y[k]
    {
      var job := (j1 + j2)[k];
      assert x[k] == ProcessChunk(model, prompt, job.chunk, job.index);
      if k < |j1| {
        assert job == j1[k] && y[k] == r1[k];
      } else {
        assert job == j2[k - |j1|] && y[k] == r2[k - |j1|];
      }
    }
    assert x == y;
  }

  /** Submitting every chunk from position 0 and reading all results back gives `Responses`. */
  lemma SubmittedInOrder(model: string -> Outcome, prompt: string, chunks: seq<string>)
    ensures var jobs := Submissions(chunks, 0);
            |jobs| == |chunks| &&
            (forall k :: 0 <= k < |chunks| ==> jobs[k] == Job(k, chunks[k])) &&
            Results(model, prompt, jobs) == Responses(model, prompt, chunks)
  {
    var jobs := Submissions(chunks, 0);
    assert forall k :: 0 <= k < |chunks| ==> jobs[k] == Job(k, chunks[k]);
    var x, y := Results(model, prompt, jobs), Responses(model, prompt, chunks);
    forall k | 0 <= k < |chunks|
      ensures x[k] == y[k]
    {
      assert jobs[k] == Job(k, chunks[k]);
    }
    assert x == y;
  }

  /** The batches `chunks[i:i+p]` for `i` in `range(start, len(chunks), p)`. */
  function Batches(chunks: seq<string>, p: nat, start: nat): seq<seq<string>>
    requires p > 0
    decreases |chunks| - start
  {
    if start >= |chunks| then []
    else [chunks[start..Min(start + p, |chunks|)]] + Batches(chunks, p, start + p)
  }

  /** Every batch is non-empty and holds at most `p` chunks, and every batch but the last exactly `p`. */
  predicate WellSized(batches: seq<seq<string>>, p: nat)
  {
    forall b :: 0 <= b < |batches| ==> 0 < |batches[b]| <= p && (b < |batches| - 1 ==> |batches[b]| == p)
  }

  /**
   The batches, one after the other, are the chunks from `start` on, in order, each exactly once;
   each batch holds `p` chunks except that the last may hold fewer.
   */
  lemma {:induction false} BatchesCover(chunks: seq<string>, p: nat, start: nat)
    requires p > 0 && start <= |chunks|
    ensures Concat(Batches(chunks, p, start)) == chunks[start..]
    ensures WellSized(Batches(chunks, p, start), p)
    decreases |chunks| - start
  {
    if start < |chunks| {
      var bs, first := Batches(chunks, p, start), chunks[start..Min(start + p, |chunks|)];
      if start + p <= |chunks| {
        BatchesCover(chunks, p, start + p);
        var rest := Batches(chunks, p, start + p);
        assert bs == [first] + rest;
        assert bs[0] == first && bs[1..] == rest;
        assert first + chunks[start + p..] == chunks[start..];
        forall b | 0 <= b < |bs|
          ensures 0 < |bs[b]| <= p && (b < |bs| - 1 ==> |bs[b]| == p)
        {
          if b > 0 {
            assert bs[b] == rest[b - 1];
          }
        }
      } else {
        assert Batches(chunks, p, start + p) == [];
        assert bs == [first];
        assert first == chunks[start..];
        assert Concat(bs) == first + Concat(bs[1..]);
      }
    }
  }

  /** One step of the batching loop: the batch at `i` follows the batches before it. */
  lemma BatchesStep(chunks: seq<string>, p: nat, i: nat, done: seq<seq<string>>)
    requires p > 0 && i < |chunks|
    requires done + Batches(chunks, p, i) == Batches(chunks, p, 0)
    ensures (done + [chunks[i..Min(i + p, |chunks|)]]) + Batches(chunks, p, i + p) == Batches(chunks, p, 0)
  {
    var first := chunks[i..Min(i + p, |chunks|)];
    assert Batches(chunks, p, i) == [first] + Batches(chunks, p, i + p);
    assert done + ([first] + Batches(chunks, p, i + p)) == (done + [first]) + Batches(chunks, p, i + p);
  }

  /**
   The batching loop of `generate`: batch `chunks[i:i+p]` for `i` in `range(0, len(chunks), p)`,
   one submission per chunk of the batch tagged `i + j`, then the batch's results read back in
   submission order and appended. `batches` lists the batches in the order they were formed and
   `submitted` the submissions in the order they were made.
   */
  method DispatchBatches(model: string -> Outcome, prompt: string, chunks: seq<string>, parallelRequests: nat)
    returns (responses: seq<string>, submitted: seq<Job>, batches: seq<seq<string>>)
    requires parallelRequests > 0
    ensures |submitted| == |chunks|
    ensures forall k :: 0 <= k < |chunks| ==> submitted[k] == Job(k, chunks[k])
    ensures responses == Responses(model, prompt, chunks)
    ensures batches == Batches(chunks, parallelRequests, 0)
  {
    var n := |chunks|;
    responses, submitted, batches := [], [], [];
    var i := 0;
    assert chunks[..0] == [];
    while i < n
      invariant 0 <= i
      invariant submitted == Submissions(chunks[..Min(i, n)], 0)
      invariant responses == Results(model, prompt, submitted)
      invariant batches + Batches(chunks, parallelRequests, i) == Batches(chunks, parallelRequests, 0)
      decreases n - i
    {
      var batch := chunks[i..Min(i + parallelRequests, n)];
      var futures := Submissions(batch, i);
      var batchResponses := Results(model, prompt, futures);
      SubmissionsAppend(chunks, i, Min(i + parallelRequests, n));
      ResultsAppend(model, prompt, submitted, futures);
      BatchesStep(chunks, parallelRequests, i, batches);
      responses := responses + batchResponses;
      submitted := submitted + futures;
      batches := batches + [batch];
      i := i + parallelRequests;
    }
    assert chunks[..n] == chunks;
    SubmittedInOrder(model, prompt, chunks);
    assert Batches(chunks, parallelRequests, i) == [];
    assert batches + [] == batches;
  }

  /**
   The loop of `generate` that copies every response through `f"{response}"`, which leaves a
   string as it is: the list it builds is the responses, unchanged and in order.
   */
  method FormatResponses(responses: seq<string>) returns (formatted: seq<string>)
    ensures formatted == responses
  {
    formatted := [];
    var k := 0;
    while k < |responses|
      invariant 0 <= k <= |responses|
      invariant formatted == responses[..k]
    {
      formatted := formatted + [responses[k]];
      k := k + 1;
    }
  }

  /**
   `generate(prompt, text, separator, parallel_requests, chunk_size)`. Besides the result,
   `submitted` lists the `process_chunk` submissions made, in order.
   */
  method Generate(model: string -> Outcome, prompt: string, text: string, sep: string,
                  parallelRequests: int, chunkSize: int)
    returns (r: GenerateResult, submitted: seq<Job>)
    ensures r == Generated(model, prompt, text, sep, parallelRequests, chunkSize)
    ensures EffectiveChunkSize(prompt, chunkSize) <= 0 ==> r == Returned(ChunkSizeError) && submitted == []
    ensures parallelRequests <= 0 ==> submitted == []
    ensures EffectiveChunkSize(prompt, chunkSize) > 0 && parallelRequests > 0 ==>
      var chunks := Chunks(text, EffectiveChunkSize(prompt, chunkSize), sep);
      |submitted| == |chunks| && forall k :: 0 <= k < |chunks| ==> submitted[k] == Job(k, chunks[k])
    ensures submitted == [] <==> EffectiveChunkSize(prompt, chunkSize) <= 0 || parallelRequests <= 0 || text == []
  {
    var size := chunkSize - |prompt| - FormattingReserve;
    if size <= 0 {
      return Returned(ChunkSizeError), [];
    }
    var chunks := SplitTextIntoChunks(text, size, sep);
    ChunksCover(text, size, sep);
    if parallelRequests <= 0 {
      return WorkerCountRejected, [];
    }
    var allResponses, batches;
    allResponses, submitted, batches := DispatchBatches(model, prompt, chunks, parallelRequests);
    var formatted := FormatResponses(allResponses);
    r := Returned(Join(formatted, sep));
    assert r == Generated(model, prompt, text, sep, parallelRequests, chunkSize);
  }

  /**
   In the responses joined by the separator, the response to chunk `k` stands at its offset,
   with exactly the separator after it when another chunk follows.
   */
  lemma ResponseInJoin(model: string -> Outcome, prompt: string, chunks: seq<string>, sep: string, k: nat)
    requires k < |chunks|
    ensures var rs := Responses(model, prompt, chunks);
            var out := Join(rs, sep);
            JoinOffset(rs, sep, k) + |rs[k]| <= |out| &&
            out[JoinOffset(rs, sep, k)..JoinOffset(rs, sep, k) + |rs[k]|] == ProcessChunk(model, prompt, chunks[k], k) &&
            (k + 1 < |chunks| ==>
              JoinOffset(rs, sep, k) + |rs[k]| + |sep| <= |out| &&
              out[JoinOffset(rs, sep, k) + |rs[k]|..JoinOffset(rs, sep, k) + |rs[k]| + |sep|] == sep)
  {
    var rs := Responses(model, prompt, chunks);
    assert |rs| == |chunks| && rs[k] == ProcessChunk(model, prompt, chunks[k], k);
    JoinAt(rs, sep, k);
  }

  /**
   Output order: in what `generate` returns, the response to chunk `k` stands at its offset,
   in chunk order, with exactly the separator between it and the next one; a chunk whose
   call failed shows the error prefix and the exception's text there instead.
   */
  lemma OutputOrder(model: string -> Outcome, prompt: string, text: string, sep: string,
                    parallelRequests: int, chunkSize: int, k: nat)
    requires EffectiveChunkSize(prompt, chunkSize) > 0 && parallelRequests > 0
    requires k < |Chunks(text, EffectiveChunkSize(prompt, chunkSize), sep)|
    ensures var chunks := Chunks(text, EffectiveChunkSize(prompt, chunkSize), sep);
            var rs := Responses(model, prompt, chunks);
            var out := Generated(model, prompt, text, sep, parallelRequests, chunkSize);
            out.Returned? &&
            JoinOffset(rs, sep, k) + |rs[k]| <= |out.value| &&
            out.value[JoinOffset(rs, sep, k)..JoinOffset(rs, sep, k) + |rs[k]|]
              == ProcessChunk(model, prompt, chunks[k], k) &&
            (k + 1 < |chunks| ==>
              JoinOffset(rs, sep, k) + |rs[k]| + |sep| <= |out.value| &&
              out.value[JoinOffset(rs, sep, k) + |rs[k]|..JoinOffset(rs, sep, k) + |rs[k]| + |sep|] == sep)
  {
    var chunks := Chunks(text, EffectiveChunkSize(prompt, chunkSize), sep);
    var rs := Responses(model, prompt, chunks);
    assert |rs| == |chunks|;
    ResponseInJoin(model, prompt, chunks, sep, k);
    assert Generated(model, prompt, text, sep, parallelRequests, chunkSize) == Returned(Join(rs, sep));
  }

  /**
   Failure isolation: a failing call only changes its own chunk's response. Two services
   that answer alike on every chunk but chunk `k` lead to the same response for every other chunk.
   */
  lemma FailureIsolated(m1: string -> Outcome, m2: string -> Outcome, prompt: string,
                        chunks: seq<string>, k: nat)
    requires k < |chunks|
    requires forall i :: 0 <= i < |chunks| && i != k ==>
      m1(FinalPrompt(prompt, chunks[i])) == m2(FinalPrompt(prompt, chunks[i]))
    ensures forall i :: 0 <= i < |chunks| && i != k ==>
      Responses(m1, prompt, chunks)[i] == Responses(m2, prompt, chunks)[i]
  {
  }

  /** Empty text is no chunks and no requests, and `generate` returns the empty string. */
  lemma EmptyText(model: string -> Outcome, prompt: string, sep: string, parallelRequests: int, chunkSize: int)
    requires EffectiveChunkSize(prompt, chunkSize) > 0 && parallelRequests > 0
    ensures Generated(model, prompt, [], sep, parallelRequests, chunkSize) == Returned([])
  {
    assert Chunks([], EffectiveChunkSize(prompt, chunkSize), sep) == [];
  }

  /**
   Text that fits after reserving room for the prompt is one chunk, sent as one request,
   and what `generate` returns is that one response unchanged.
   */
  lemma SingleChunk(model: string -> Outcome, prompt: string, text: string, sep: string,
                    parallelRequests: int, chunkSize: int)
    requires 0 < |text| <= EffectiveChunkSize(prompt, chunkSize) && parallelRequests > 0
    ensures Chunks(text, EffectiveChunkSize(prompt, chunkSize), sep) == [text]
    ensures Generated(model, prompt, text, sep, parallelRequests, chunkSize)
      == Returned(ProcessChunk(model, prompt, text, 0))
  {
    var size := EffectiveChunkSize(prompt, chunkSize);
    assert text[|text|..] == [] && text[..|text|] == text;
    assert Chunks(text, size, sep) == [text[..|text|]] + Chunks([], size, sep);
  }
}
