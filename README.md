# give-in-chunks: the chunk-and-reassemble pipeline

`give-in-chunks` sends a long text to a text-generation service in pieces. The core
(`generate.py`) does four things:

- **Split point.** `find_split_position` chooses where the next chunk ends. Text that fits is
  taken whole. Otherwise the chunk ends just after the last separator that lies wholly inside
  a window of 100 characters either side of the chunk size. With no such separator, or an
  empty separator, the cut is at exactly the chunk size.
- **Chunking loop.** `split_text_into_chunks` applies the split point to the rest of the text
  until the text is used up.
- **Generate.** `generate` takes `chunk_size - len(prompt) - 50` as the effective chunk size
  and returns a fixed error string when that is not positive. It splits the text, submits the
  chunks in consecutive batches of `parallel_requests`, tags chunk `i + j` with its position,
  and reads the results back in submission order. It copies every response through
  `f"{response}"` and returns them joined by the separator.
- **Per-chunk outcome.** `process_chunk` sends `prompt + "\n\nText chunk to process:\n" + chunk`
  to the service. It returns the service's text, or `"Error processing chunk: "` followed by
  the exception's text.

The Dafny project has three modules:

- `Strings` (`strings.dfy`): Python's `str.rfind`, `"".join` and `sep.join`, and where each
  part sits inside a join.
- `Splitter` (`splitter.dfy`): the split-point function, a recursive definition `Chunks` of
  the chunk list, and the imperative chunking loop proved equal to it.
- `Dispatcher` (`dispatcher.dfy`): the prompt and error shaping, the batching loop, the
  formatting loop and `Generate`. `Generate` is proved equal to the specification function
  `Generated`. `OutputOrder` is stated about `Generated`. The failure-isolation
  lemma is stated about `Responses`, the list of responses that `Generated` joins.

The generation service is a parameter `model: string -> Outcome`. It maps the full prompt to
`Success(text)` or `Failure(message)`, where the message is what `str(e)` of the exception
would give. `Generate` also returns `submitted`, the list of `process_chunk` submissions in the
order they were made, so that "each chunk exactly once, with its own index" can be stated.
The batching loop also returns the batches it formed, so that their grouping can be stated.

`ThreadPoolExecutor(max_workers=parallel_requests)` raises `ValueError` when
`parallel_requests <= 0`. This happens after splitting and before any submission, and the
model returns `WorkerCountRejected`.

## Model

| member | source | states |
|---|---|---|
| Strings.LastOccurrenceUpTo | generate.py:24 | the result is -1 or an index `<= k` where `sep` occurs, and `sep` occurs at no index after it up to `k` |
| Strings.RFind | generate.py:24 | Like Python's `str.rfind`, the result is the start of the last occurrence of `sep` in `s`, or -1 when `sep` occurs nowhere, and `len(s)` when `sep` is empty. |
| Strings.Concat | generate.py:31-41 | definition of `"".join` (the parts one after the other); the source has no such call, and `ChunksCover` and `BatchesCover` use it to state that nothing is lost or repeated |
| Strings.Join | generate.py:100 | definition of `sep.join`; its properties are lemmas `JoinLength` and `JoinAt` |
| Strings.JoinLength | generate.py:100 | a join is as long as its parts plus one separator between each two neighbouring parts |
| Strings.JoinAt | generate.py:100 | part `k` stands in the joined string at its offset, and exactly the separator follows it when another part comes next |
| Splitter.WindowStart | generate.py:18 | definition of `max(0, chunk_size - threshold)`; used by `FindSplitPositionCut` and `FindSplitPositionIsRFind` |
| Splitter.WindowEnd | generate.py:19 | definition of `min(len(text), chunk_size + threshold)`; used by `FindSplitPositionCut` and `FindSplitPositionIsRFind` |
| Splitter.FindSplitPosition | generate.py:12-29 | text that fits gives its whole length; the position never passes the text's end or `chunk_size + threshold`; for non-empty text and a positive size it is at least 1 |
| Splitter.FindSplitPositionCut | generate.py:17-29 | for text that does not fit: with a separator inside the window, the position is just after an occurrence lying in the window, and no later occurrence lies in the window; otherwise the position is exactly `chunk_size` |
| Splitter.FindSplitPositionIsRFind | generate.py:18-26 | the position is `search_start + text[search_start:search_end].rfind(separator) + len(separator)` when that search finds something, and `chunk_size` when it does not |
| Splitter.Chunks | generate.py:31-41 | definition: the chunks of the loop, one split position at a time; its properties are lemmas `ChunksCover` and `ChunksShape`, and `SplitTextIntoChunks` is proved equal to it |
| Splitter.ChunksCover | generate.py:31-41 | the chunks, concatenated in order, give back the text exactly; there are no chunks exactly when the text is empty |
| Splitter.ChunksShape | generate.py:14-29 | every chunk is non-empty and at most `chunk_size + 100` long; it either ends with a separator found in the window, or is exactly `chunk_size` long, or is the last chunk and at most `chunk_size` long |
| Splitter.ChunksStep | generate.py:36-39 | one loop step takes a non-empty prefix of what is left and keeps "chunks so far plus the chunks of the rest are all the chunks" |
| Splitter.ChunksDone | generate.py:36-41 | when nothing is left, the chunks gathered are all the chunks of the text |
| Splitter.SplitTextIntoChunks | generate.py:31-41 | the loop terminates and returns `Chunks`, of which `ChunksCover` and `ChunksShape` hold |
| Dispatcher.FinalPrompt | generate.py:46 | definition of the prompt sent; its properties are lemmas `FinalPromptParts` and `FinalPromptInjective` |
| Dispatcher.FinalPromptParts | generate.py:46 | the prompt sent is the caller's prompt, then the fixed header, then the chunk, with nothing else |
| Dispatcher.FinalPromptInjective | generate.py:46 | two different chunks never produce the same prompt |
| Dispatcher.ProcessChunk | generate.py:43-71 | definition of the string `process_chunk` returns; its property is lemma `ProcessChunkOutcome` |
| Dispatcher.ProcessChunkOutcome | generate.py:43-71 | on success the chunk's response is the service's text; on failure it is `"Error processing chunk: "` followed by exactly the exception's text |
| Dispatcher.EffectiveChunkSize | generate.py:79-80 | definition of `chunk_size - len(prompt) - 50`; used by `Generate`, `SingleChunk` and `OutputOrder` |
| Dispatcher.Responses | generate.py:87-94 | definition: chunk `k` processed under index `k`, in chunk order; `DispatchBatches` is proved equal to it, and `OutputOrder` and `FailureIsolated` are about it |
| Dispatcher.Submissions | generate.py:92 | definition: one batch's submissions, chunk `j` tagged `i + j`; its properties are lemmas `SubmissionsAppend` and `SubmittedInOrder` |
| Dispatcher.Results | generate.py:93 | definition: the results read back from a list of futures, in order; its properties are lemmas `ResultsAppend` and `SubmittedInOrder` |
| Dispatcher.Batches | generate.py:90-91 | definition: the slices `chunks[i:i+p]` for `i` in `range(start, len(chunks), p)`; its property is lemma `BatchesCover` |
| Dispatcher.BatchesCover | generate.py:90-91 | the batches, one after the other, are the chunks in order, each exactly once; every batch is non-empty with at most `p` chunks, and every batch but the last has exactly `p` |
| Dispatcher.BatchesStep | generate.py:90-91 | one loop step adds the batch at `i` after the batches before it |
| Dispatcher.SubmissionsAppend | generate.py:90-92 | a batch starting at `i`, tagged `i + j`, continues the submissions of all earlier chunks |
| Dispatcher.ResultsAppend | generate.py:93-94 | reading back two runs of futures in turn gives their responses in turn |
| Dispatcher.SubmittedInOrder | generate.py:89-94 | submitting every chunk from position 0 tags chunk `k` with `k`, and reading the results back gives `Responses` |
| Dispatcher.DispatchBatches | generate.py:87-94 | every chunk is submitted exactly once, in chunk order, with its own position as its index; the collected responses are `Responses` of the chunks; the batches formed are `Batches` |
| Dispatcher.FormatResponses | generate.py:96-98 | the formatted list is the responses, unchanged and in order |
| Dispatcher.Generate | generate.py:73-100 | the result is `Generated`; a non-positive effective size gives the fixed error and no submissions; no workers gives no submissions; otherwise chunk `k` is submitted under index `k`; no submission is made exactly when the size is not positive, there are no workers, or the text is empty |
| Dispatcher.Generated | generate.py:73-100 | definition of what `generate` returns; `Generate` is proved equal to it, and its properties are lemmas `OutputOrder`, `EmptyText` and `SingleChunk` |
| Dispatcher.ResponseInJoin | generate.py:96-100 | in the joined responses, the response to chunk `k` stands at its offset, with exactly the separator after it when another chunk follows |
| Dispatcher.OutputOrder | generate.py:89-100 | in the returned string, the response to chunk `k` (or its error text) stands at its offset in chunk order, with exactly the separator after it when another chunk follows |
| Dispatcher.FailureIsolated | generate.py:61-71 | a service that behaves differently on one chunk changes no other chunk's response |
| Dispatcher.EmptyText | generate.py:85-100 | empty text gives the empty string |
| Dispatcher.SingleChunk | generate.py:79-100 | text that fits in the effective size is one chunk, and `generate` returns that one response unchanged |

## Left out

- The Google Generative AI client (`genai.configure`, `GenerativeModel`, `generate_content`) is foreign network code. It is the parameter `model`, and an exception it raises is a `Failure` carrying the exception's text.
- The writes under `responses/` (`os.makedirs`, `open`, timestamped file names) are I/O with a wall clock, and the returned string does not depend on them. A write that fails inside the `try` would also turn into an error string. The same failure in the `except` branch would propagate out of `process_chunk`. Neither case is modelled.
- The `ThreadPoolExecutor` threads are a sequential loop over batches. Every result is read through its future in submission order, so the returned value is the same. Timing and how many calls run at once are not modelled.
- Outcome / model: the service is a function of the prompt, so it is deterministic. Two chunks with equal text always get the same answer or the same failure. A real service can fail one call and answer the same prompt on another, and for two equal chunks `FailureIsolated` cannot single out one of them.
- `load_dotenv` and `os.getenv` read the environment and are not modelled.
- `main.py` is web glue (routes, templates, form parsing) and is not part of this model.
- Splitter.FindSplitPosition: the chunk size is a `nat`. `generate` only calls the splitter with a positive effective size, so the negative sizes Python would also accept are not modelled.
- Splitter.SplitTextIntoChunks: requires a positive chunk size. With size 0 and no separator in the window, the source's loop never advances, and `generate` never passes 0.
- Splitter.FindSplitPosition: the window search scans the text up to the window's end instead of building the slice `text[search_start:search_end]`. `FindSplitPositionIsRFind` proves both give the same position.
- Strings are sequences of Dafny characters, which are Unicode scalar values. A Python `str` can also hold lone surrogates (U+D800 to U+DFFF); strings containing them are not modelled. No encoding is modelled.
- Integers are unbounded, as Python's are.
