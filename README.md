# InsightVerse core, modelled in Dafny

InsightVerse ingests PDF documents and cuts their text into overlapping
windows. It stores each window with an embedding for nearest-neighbour
retrieval, then answers questions by retrieval-augmented generation over the
nearest windows. For each document it also derives a term co-occurrence graph
and a timeline.

This project models the deterministic core of that pipeline and proves
properties of the model. There is one module per source file, plus shared
helpers:

- `Strings`: the .NET character classes and string operations the backend
  relies on. These are `char.IsControl`, `char.IsWhiteSpace` (the `\s` of
  .NET regular expressions), `Trim`, `string.Join`,
  `string.IsNullOrWhiteSpace`, ASCII case folding and `int.ToString()`.
- `Collections`: sequences without repeats, first-appearance order (`Dedup`),
  dictionaries of counts (`Tally`), filters, and the counter update
  `m[k] = m.GetValueOrDefault(k) + 1` as a method.
- `Options`: an `Option` datatype.
- `Sanitize`: the control-character filter that `Clean` in
  backend/Program.cs and `CleanText` in backend/PdfTextExtractor.cs share.
- `Chunking`: the window arithmetic of the chunk loop in backend/Program.cs.
- `Ingest`: backend/Program.cs. It covers:
  - `Clean`;
  - the chunk loop, as a method over an in-memory `Store` class that holds
    the `documents` and `chunks` tables;
  - the upload loop with its per-file extension check;
  - the folder ingest;
  - the `topK` clamp of `/api/search`;
  - the context join and prompt of `/api/chat`.
- `CoOccurrence`: `BuildCoOccurrence` of backend/GraphService.cs. It covers:
  - the `WordRx` tokenizer as leftmost-longest matching;
  - the nested loops that update the `vocab` and `co` dictionaries and the
    `idSeq` counter;
  - the projection to nodes and edges.
- `Timeline`: `ExtractTimelineAsync` and `TryParse` of
  backend/TimelineService.cs.
- `Llm`: `LocalSummarize` and the fallback decision of `GenerateAsync` in
  backend/LlmService.cs.
- `Rag`: `BuildPrompt` of backend/RagService.cs.
- `PdfText`: `CleanText` of backend/PdfTextExtractor.cs.
- `GraphPanel`: `buildElements` of frontend/src/components/GraphPanel.jsx.
  The pure steps are functions. The `nodeSet.add` loop and the `degree` Map
  loop are methods.

The model treats the external services as parameters:

- The embedder is a function `string -> Vector`.
- `Guid.NewGuid` is a function from the file's position to an id.
- The PDF reader's output is the text of each `SourceFile`.
- `Directory.Exists` and `Directory.GetFiles` together are an optional list of
  files.
- pgvector's nearest-neighbour ordering is the ranked list of rows it returns.
- The HTTP reply of the completion service is a `Reply` value holding a small
  JSON tree.
- `JsonSerializer.Deserialize<List<TimelineEvent>>` is a function into
  `Parsed`.
- The text generator used by the timeline is a function `string -> string`.

Two behaviours of the code that a reader might not expect:

- With a negative overlap the step `chunkSize - overlap` exceeds the window,
  so the windows leave gaps and some characters are in no chunk
  (`Chunking.StepBeyondSizeLeavesGap`, `Chunking.NegativeOverlapExample`).
  With a non-negative overlap the windows cover the text
  (`Chunking.WindowsCover`).
- The frontend calls `DELETE /api/docs/{id}` and `POST /api/reset`
  (frontend/src/App.jsx:54 and :60); the backend has no such endpoints, so
  there is nothing to model for them.

## Model

| member | source | states |
|---|---|---|
| Sanitize.StrippedKept | backend/Program.cs:65-76 | the filtered text is never longer than its input, and it holds only characters that are not control characters or are `\r`, `\n` or `\t` |
| Sanitize.StrippedCounts | backend/Program.cs:69-74 | every kept character keeps all its occurrences, and every dropped one loses all of them |
| Sanitize.StrippedAppend | backend/Program.cs:69-74 | the filter works character by character: `Clean(a + b) == Clean(a) + Clean(b)` |
| Sanitize.StrippedFixed | backend/Program.cs:69-74 | a text is left unchanged exactly when every character in it is kept (both directions) |
| Sanitize.StrippedIdempotent | backend/Program.cs:65-76 | cleaning twice is cleaning once |
| Ingest.Clean | backend/Program.cs:65-76 | the `foreach` that appends to the StringBuilder computes the filter |
| Chunking.Step | backend/Program.cs:107 | the stride is at least 1; it is `chunkSize - overlap` when that is at least 1, and 1 otherwise |
| Chunking.WindowAt | backend/Program.cs:107-109 | window k starts at `k * step` and has length `min(chunkSize, L - start)` |
| Chunking.WindowBounds | backend/Program.cs:109 | with a positive chunk size, every window is non-empty and at most `chunkSize` long |
| Chunking.NoTextNoWindows | backend/Program.cs:107 | an empty text gives no window |
| Chunking.ShortTextOneWindow | backend/Program.cs:107-119 | a text no longer than the chunk size is exactly one window, `[0, L)` |
| Chunking.ShortTextOneChunk | backend/Program.cs:107-119 | such a text gives exactly one chunk, equal to `Clean(text)` |
| Chunking.WindowsContiguous | backend/Program.cs:107-119 | with `step <= chunkSize`, the first window starts at 0, consecutive windows overlap or abut, and the last window ends exactly at L (the loop leaves through the `break`) |
| Chunking.WindowsCover | backend/Program.cs:107-119 | with `step <= chunkSize`, every character of the text lies in some window |
| Chunking.StepBeyondSizeLeavesGap | backend/Program.cs:107 | when the step exceeds the chunk size (negative overlap), the character just after the first window is in no window |
| Chunking.NegativeOverlapExample | backend/Program.cs:107-109 | size 2 with overlap -2 over 7 characters gives windows [0,2) and [4,6), so characters 2, 3 and 6 are in no chunk |
| Chunking.DefaultWindowsExample | backend/Program.cs:103-109 | the defaults 800 * 4 and 120 * 4 cut a 5000-character text into exactly [0, 3200) and [2720, 5000) |
| Chunking.ChunksAreWindows | backend/Program.cs:109-110 | there are as many chunks as windows, and chunk k is the cleaned text of window k |
| Ingest.Store.InsertDocument | backend/Program.cs:99-101 | the `documents` table grows by one row at its end; `chunks` is unchanged |
| Ingest.Store.InsertChunk | backend/Program.cs:114-117 | the `chunks` table grows by one row at its end; `documents` is unchanged |
| Ingest.StoreChunks | backend/Program.cs:106-120 | the chunk loop appends exactly `ChunkRows(doc, ChunkTexts(text, chunkSize, overlap), embed)` and leaves `documents` alone; it fails exactly when a negative chunk size meets a non-empty text (`Substring` throws) |
| Ingest.StoreChunk | backend/Program.cs:110-117 | one loop pass stores `Clean(window)`, its embedding and the running index |
| Ingest.IngestDocument | backend/Program.cs:98-120 | one document row with the text's length, then all its chunk rows |
| Ingest.ChunkRows | backend/Program.cs:106-117 | row k holds index k, the document id, the k-th chunk text and its embedding |
| Ingest.ChunkIndexesContiguous | backend/Program.cs:106-117 | the `idx` values stored for one document are exactly 0, 1, ..., n-1, in insertion order |
| Ingest.TextsOfChunkRows | backend/Program.cs:114-117 | reading the chunks of a document back in order gives its chunk texts, and gives nothing for any other document |
| Ingest.StopAt | backend/Program.cs:90-93 | the files up to the returned position all pass; the file at that position fails the extension check, or the chunk loop fails on it |
| Ingest.IngestFiles | backend/Program.cs:89-126 | the shared file loop returns the outcome `RunOutcome`, appends one document row per file it reached, and appends the chunk rows of every file it completed |
| Ingest.RejectedAt | backend/Program.cs:92-93 | the first non-`.pdf` file stops the run with "Only PDF supported in this build" |
| Ingest.FailedAt | backend/Program.cs:99-131 | a failing chunk loop ends the run with a problem, after that file's document row is stored |
| Ingest.Completed | backend/Program.cs:122-126 | when every file passes, the result lists one new id per file, in order |
| Ingest.IngestUploads | backend/Program.cs:80-133 | no files gives "Upload at least one PDF" and stores nothing; otherwise the outcome, the `documents` rows and the `chunks` rows are those of `IngestFiles` with the extension check on |
| Ingest.RejectedUploadKeepsEarlierFiles | backend/Program.cs:90-101 | when a non-pdf upload is rejected, the documents of all earlier files (all `.pdf`) are already stored |
| Ingest.AllPdfUploadsIngested | backend/Program.cs:90-126 | with a non-negative chunk size, uploads that are all `.pdf` are all ingested |
| Ingest.TitleOfPdf | backend/Program.cs:101 | the title of `dir/stem.pdf` is `stem` (`Path.GetFileNameWithoutExtension`) |
| Ingest.FileNameStart | backend/Program.cs:156 | `Path.GetFileName` keeps what follows the last `/` |
| Ingest.IngestFolder | backend/Program.cs:135-188 | a missing folder gives "No folder: ...", an empty listing gives "No PDFs found in ...", and both store nothing; otherwise the outcome, the `documents` rows and the `chunks` rows are those of `IngestFiles` without the extension check |
| Ingest.FolderSources | backend/Program.cs:154-156 | a document stored by the folder endpoint has the bare file name as its source, the name without extension as its title, and the k-th new id |
| Ingest.TopK | backend/Program.cs:199 | 8 when `TopK <= 0`, `min(TopK, 50)` otherwise, so always in [1, 50] |
| Ingest.Search | backend/Program.cs:195-207 | a blank query gives "Query is required"; otherwise the first `TopK` hits, in the store's order |
| Ingest.ChatRowsOf | backend/Program.cs:226-230 | the context uses the first `min(6, n)` nearest rows, in order |
| Ingest.Chat | backend/Program.cs:221-236 | a blank query gives "Query is required", and otherwise `used` is at most 6 |
| Ingest.ChatUsesNearestRows | backend/Program.cs:226-236 | `used` is the number of rows, the prompt is `BuildPrompt` of the joined rows, it parses back into that context, question and tone, and the answer is `GenerateAsync(prompt)` |
| Ingest.ChatContextHoldsRows | backend/Program.cs:232 | each row stands verbatim at its offset in the `"\n\n---\n\n"` join |
| Strings.TrimIsSlice | backend/LlmService.cs:63 | `Trim` keeps a contiguous slice and drops only white space at either end |
| Strings.JoinAt | backend/Program.cs:232 | each part of a `string.Join` sits verbatim at its offset |
| Strings.JoinSepAt | backend/Program.cs:232 | the separator stands between consecutive parts |
| Strings.JoinLength | backend/LlmService.cs:66 | a join is as long as its parts and the separators between them |
| Strings.NatToStringInjective | backend/GraphService.cs:33 | distinct ids print as distinct strings |
| CoOccurrence.RunLength | backend/GraphService.cs:5 | the greedy quantifier takes the whole run of `[A-Za-z0-9-]` characters |
| CoOccurrence.SpansAreMatches | backend/GraphService.cs:5-15 | every span the matcher finds is a whole match (a letter, then at least three word characters, then no further word character), and spans are in order without overlap |
| CoOccurrence.SpansLeftmost | backend/GraphService.cs:15 | no match starts before the first span, between two spans, or after the last span: the matches are the leftmost ones |
| CoOccurrence.TokenShape | backend/GraphService.cs:5-15 | every token is at least 4 characters long, starts with a letter, consists of `[a-z0-9-]` only, and has no upper-case letter |
| CoOccurrence.TokensExample | backend/GraphService.cs:15 | `"The Co-Op"` gives the single token `"co-op"` |
| CoOccurrence.KeyOf | backend/GraphService.cs:26 | the key is the pair in order, smaller id first |
| CoOccurrence.RowMembers | backend/GraphService.cs:21-27 | the inner loop of word i counts exactly the keys of the positions b with `i < b < min(n, i + window)` (both directions) |
| CoOccurrence.TextPairsMembers | backend/GraphService.cs:16-27 | a key is counted in a text exactly when it is the key of two of its positions a < b with `b - a < window` (both directions) |
| CoOccurrence.PairsStayInText | backend/GraphService.cs:13-30 | a key is counted for the corpus exactly when it is counted within one text: pairs never cross text boundaries |
| CoOccurrence.SmallWindowNoEdges | backend/GraphService.cs:21 | `window <= 1` gives no edge |
| CoOccurrence.SelfLoop | backend/GraphService.cs:26 | a word repeated within the window gives the self-loop key (a, a) |
| CoOccurrence.PairsLength | backend/GraphService.cs:16-21 | the number of counted pairs is the sum over texts and positions i of `min(n, i + window) - i - 1`, counting only non-empty ranges |
| CoOccurrence.PairIdsInRange | backend/GraphService.cs:18-26 | every counted key satisfies `a <= b < |vocab|` |
| CoOccurrence.TokenInCorpus | backend/GraphService.cs:18-24 | every token of every text is in the shared vocabulary |
| CoOccurrence.VocabularyOrder | backend/GraphService.cs:12-24 | ids follow first appearance across all texts: a smaller id means an earlier first occurrence |
| CoOccurrence.Register | backend/GraphService.cs:18-24 | an unseen word gets the next id `idSeq++`, a seen word keeps its id, and the dictionary stays the first-appearance numbering of all words seen |
| CoOccurrence.CountRow | backend/GraphService.cs:21-28 | the inner loop registers the words it meets and counts exactly its row of keys |
| CoOccurrence.CountPairAt | backend/GraphService.cs:23-27 | one pass adds one to the count of the key `a < b ? (a, b) : (b, a)` |
| CoOccurrence.CountText | backend/GraphService.cs:15-29 | the loop over one text leaves the vocabulary extended by its tokens, and the counts extended by its pairs |
| CoOccurrence.CountCorpus | backend/GraphService.cs:9-30 | after all texts, `vocab` numbers all tokens by first appearance and `co` holds, for each key, how often it was counted |
| CoOccurrence.BuildCoOccurrence | backend/GraphService.cs:7-44 | the nodes and edges built from the dictionaries are the projections of the vocabulary and of the counted pairs |
| CoOccurrence.NodesOfAt | backend/GraphService.cs:32-34 | node k has id `|vocab| - 1 - k`, its word as label and weight 1: highest id first |
| CoOccurrence.NodeIds | backend/GraphService.cs:32-33 | node ids are decimal strings counting down from `|vocab| - 1` to 0 |
| CoOccurrence.NodeLabels | backend/GraphService.cs:32-34 | there is exactly one node per distinct token: labels are pairwise distinct, and a word is a label exactly when it occurs in some text |
| CoOccurrence.EdgesAre | backend/GraphService.cs:26-41 | edge k is the k-th distinct counted key, with id `"a-b"`, source a, target b (so `a <= b`), and weight equal to the number of times the key was counted; every counted key has its edge |
| CoOccurrence.EdgeWeightsSum | backend/GraphService.cs:27-41 | the edge weights add up to the number of counted pairs |
| Collections.CountOne | backend/GraphService.cs:27 | adding one to a key's count, or inserting it with count 1, keeps the dictionary equal to the tally of everything counted, and its keys in first-count order |
| Collections.TallyCounts | backend/GraphService.cs:27 | the counts dictionary holds exactly the keys seen, each with its number of occurrences |
| Collections.DedupFirstAppearance | backend/GraphService.cs:18-24 | the first-appearance list is ordered by first occurrence |
| Collections.FilterMembers | frontend/src/components/GraphPanel.jsx:12-30 | `filter` keeps exactly the elements that satisfy the predicate (both directions) |
| Collections.FilterKeepsOrder | frontend/src/components/GraphPanel.jsx:30 | `filter` keeps the relative order of the elements it keeps (both directions) |
| Timeline.Sample | backend/TimelineService.cs:6 | `chunks.Take(6)` is the first `min(6, n)` chunks |
| Timeline.TimelinePrompt | backend/TimelineService.cs:6-12 | the prompt is the fixed instruction header, ending in `Text:` and a newline, followed by the sampled chunks joined by `"\n\n"` |
| Timeline.PromptIgnoresLaterChunks | backend/TimelineService.cs:6 | chunks after the sixth do not change the prompt |
| Timeline.Truncate | backend/TimelineService.cs:29 | the text itself when it has at most 300 characters; otherwise its first 300 characters and `"..."`, so never longer than 303 |
| Timeline.Fallback | backend/TimelineService.cs:28-30 | the fallback event has title "Summary" and date "n/a"; its summary is the text itself up to 300 characters, and otherwise the first 300 characters followed by "..." |
| Timeline.TryParse | backend/TimelineService.cs:19-32 | a parsed list is returned as is, a null list becomes the empty list, and a parse failure gives exactly the one fallback event |
| Timeline.ExtractTimeline | backend/TimelineService.cs:14-16 | the result is `TryParse` of the generator's reply to the prompt |
| Timeline.MalformedReplyGivesOneEvent | backend/TimelineService.cs:26-30 | an unparsable reply gives one "Summary" event dated "n/a" with a summary of at most 303 characters |
| Llm.Tail | backend/LlmService.cs:61 | the last 1500 characters of a longer prompt, or the whole prompt |
| Llm.Split | backend/LlmService.cs:62 | no fragment of the split contains `.`, `!` or `?` |
| Llm.SplitJoin | backend/LlmService.cs:62 | splitting fragments joined by a terminator gives the fragments back |
| Llm.NonEmptyIsFilter | backend/LlmService.cs:62-64 | dropping empty entries is the filter on non-emptiness: the non-empty entries, in their order, repeats included |
| Llm.SentencesShape | backend/LlmService.cs:62-65 | at most 6 sentences are kept, each non-empty, with no terminator and no white space at either end |
| Llm.SentencesAreFirstFragments | backend/LlmService.cs:62-65 | the sentences are the first min(6, n) of the n non-empty trimmed fragments of the non-empty split pieces, in order |
| Llm.LocalSummarizeShape | backend/LlmService.cs:66-68 | the output is `"Summary (local fallback):\n- "` and then the sentences joined by `"\n- "`, or the no-content message when there are none |
| Llm.NothingToSummarize | backend/LlmService.cs:67-68 | a prompt of only terminators and white space gives exactly `"Summary (local fallback):\n- No content available to summarize."` |
| Llm.Provider | backend/LlmService.cs:8 | `LLM_PROVIDER` when set, and "openai" otherwise |
| Llm.PropertyIndex | backend/LlmService.cs:38-41 | the member `TryGetProperty` finds has the name asked for, and no later member has it |
| Llm.Generate | backend/LlmService.cs:10-55 | the reply's content exactly when the provider is "openai" (in any case), the key is set, and the reply is a successful, well-formed completion with string content; `LocalSummarize(prompt)` in every other case |
| Llm.OfflineIgnoresReply | backend/LlmService.cs:14-49 | with another provider or no key, the reply does not matter and the result is the local summary |
| Llm.RemoteContentOfCompletion | backend/LlmService.cs:38-43 | a well-formed completion yields its content unchanged |
| Llm.NullContentFallsBack | backend/LlmService.cs:43 | a null `content` yields no remote text |
| Llm.DefaultProviderUsesCompletion | backend/LlmService.cs:8-43 | with no provider set and a key, a successful completion's content is returned |
| Rag.Tone | backend/RagService.cs:5-10 | "bullets" and "concise" pick their tones, and every other style (null, or another case) picks the default tone (each an if-and-only-if) |
| Rag.BuildPrompt | backend/RagService.cs:12-22 | the prompt starts with the fixed instruction and `Context:` header and ends with the tone; its length is that of the pieces |
| Rag.ToneOfPrompt | backend/RagService.cs:12-22 | the tone can be read back from the end of the prompt |
| Rag.ParseBuildPrompt | backend/RagService.cs:12-22 | given the context's length, the prompt parses back into exactly the context, the question and the tone: they are inserted verbatim in template order |
| PdfText.Collapse | backend/PdfTextExtractor.cs:53 | after `Regex.Replace(s, @"\s+", " ")`, no two adjacent white-space characters remain, and every remaining one is `' '` |
| PdfText.CollapseRun | backend/PdfTextExtractor.cs:53 | a maximal white-space run followed by a non-white-space character or the end is replaced by exactly one `' '` |
| PdfText.CollapseAppend | backend/PdfTextExtractor.cs:53 | text that ends in a non-white-space character collapses independently of what follows it |
| PdfText.CollapseRunBetween | backend/PdfTextExtractor.cs:53 | `Collapse(a + w + b) == Collapse(a) + " " + Collapse(b)` for a white-space run `w` between text not ending and text not starting with white space: words on either side of a run stay apart, separated by one space |
| PdfText.CleanText | backend/PdfTextExtractor.cs:41-54 | the filter loop followed by collapse and trim computes `Cleaned` |
| PdfText.CleanedShape | backend/PdfTextExtractor.cs:45-53 | the output has no control character, no run of white space, only `' '` as white space, and no white space at either end |
| PdfText.CleanedVisible | backend/PdfTextExtractor.cs:45-53 | the characters that are neither white space nor control characters are preserved, in their order |
| PdfText.CleanedIdempotent | backend/PdfTextExtractor.cs:41-54 | cleaning twice is cleaning once |
| PdfText.CollapseFixed | backend/PdfTextExtractor.cs:53 | collapsing already-collapsed text changes nothing |
| GraphPanel.NoGraphNoElements | frontend/src/components/GraphPanel.jsx:9-10 | a null `raw`, or one with no `nodes` and no `edges`, gives `[]` |
| GraphPanel.AddAllIds | frontend/src/components/GraphPanel.jsx:16 | the `forEach` adds exactly the ids of the nodes to the set |
| GraphPanel.CandidatesAre | frontend/src/components/GraphPanel.jsx:13-16 | a node is a candidate exactly when it is an endpoint of a surviving edge or, with `showAll`, the id of a node (both directions) |
| GraphPanel.CountDegrees | frontend/src/components/GraphPanel.jsx:20-24 | the degree loop leaves the Map holding each endpoint's number of occurrences, with its keys in insertion order |
| GraphPanel.DegreeSnoc | frontend/src/components/GraphPanel.jsx:22-23 | one more edge adds one to the degree of its source and one to its target, so a self-loop adds 2 |
| GraphPanel.DegreeEntriesFacts | frontend/src/components/GraphPanel.jsx:20-25 | the Map's entries are distinct and pair each endpoint, in first-appearance order, with its degree |
| GraphPanel.SortPermutes | frontend/src/components/GraphPanel.jsx:25 | sorting is a permutation |
| GraphPanel.SortDescending | frontend/src/components/GraphPanel.jsx:25 | the sorted entries are in descending degree order |
| GraphPanel.SortStable | frontend/src/components/GraphPanel.jsx:25 | the sort is stable: the entries of each degree keep their order |
| GraphPanel.SortDistinct | frontend/src/components/GraphPanel.jsx:25 | sorting distinct entries gives distinct entries |
| GraphPanel.RankedEntry | frontend/src/components/GraphPanel.jsx:25 | every ranked entry is an endpoint together with its degree |
| GraphPanel.ReductionBound | frontend/src/components/GraphPanel.jsx:19-26 | when there are more than `nodeLimit` candidates, at most `nodeLimit` nodes are kept, all of them edge endpoints (isolated nodes are dropped even with `showAll`) |
| GraphPanel.ReductionKeepsTopDegrees | frontend/src/components/GraphPanel.jsx:19-26 | a kept node's degree is at least that of any dropped endpoint; on equal degrees, the kept one first appears earlier among the endpoints |
| GraphPanel.TieBreak | frontend/src/components/GraphPanel.jsx:20-25 | entries of equal degree stay in order of their first appearance as endpoints |
| GraphPanel.KeptEdgesClosed | frontend/src/components/GraphPanel.jsx:13-27 | without reduction, the node set and edges are the candidates and the heavy edges; in both branches the kept edges are exactly the heavy edges with both endpoints in the final node set (an iff), and they are the order-preserving filter `Within` of the heavy edges |
| GraphPanel.BuildElements | frontend/src/components/GraphPanel.jsx:8-38 | the imperative function computes `Elements` |
| GraphPanel.ElementsEdges | frontend/src/components/GraphPanel.jsx:12-35 | every edge element comes from a raw edge, has weight at least `minWeight` (a missing weight counts as 1), and has both endpoints in the node set; conversely every heavy edge with both endpoints kept is drawn; the edge elements follow the node elements, in the order of the heavy edges |
| GraphPanel.ElementsNodes | frontend/src/components/GraphPanel.jsx:30-32 | the node elements are exactly the raw nodes whose id is in the node set, each labelled by its label or else its id (both directions) |
| GraphPanel.ElementsLayout | frontend/src/components/GraphPanel.jsx:31-36 | all node elements come before all edge elements |

## Left out

- Ingest.FileNameStart: only `/` separates directories, as `Path.GetFileName` does on Linux; on Windows it also splits at `\`, which the model does not.
- backend/EmbeddingService.cs is not part of this model. It is an HTTP client, and its fallback embedding is floating-point arithmetic. The embedder is a parameter.
- `ToVectorLiteral` (backend/Program.cs:63-64) formats floats. Embeddings are an opaque `Vector` value.
- HTTP routing, form parsing, CORS, Swagger, logging and the Npgsql/Dapper `Db` class are left out as I/O. The two tables are modelled as sequences in insertion order.
- The `HasFormContentType` check (backend/Program.cs:84) is left out because it is request plumbing. The model starts from the list of uploaded files.
- pgvector's `<=>` ordering and the `score` column (backend/Program.cs:202-205, 229) are computed by the database. The ranked rows are a parameter.
- `/api/docs`, `/api/graph` and `/api/timeline` (backend/Program.cs:245-284) only query the store and call the modelled services. Their plumbing is left out.
- Environment variables are read as values: the chunk size and overlap, the folder, `LLM_PROVIDER` and `OPENAI_API_KEY`. Their `int.Parse` is left out.
- Ingest.StoreChunks: `chunkSize * 4` and the window arithmetic use unbounded integers, so 32-bit overflow for huge settings is not modelled.
- Exceptions are modelled only where the code depends on them:
  - a negative `chunkSize` makes `Substring` throw;
  - malformed JSON makes `TryParse` fall back;
  - any failure in `GenerateAsync` gives the local summary.
  Exceptions from the embedder or the database are not modelled.
- Null strings are left out. The model's strings are never null, so the `IsNullOrEmpty` guards of `Clean` and `CleanText` reduce to the empty-string case. The definitions map the empty string to itself.
- `char` is a Unicode scalar value here, not a UTF-16 code unit. Surrogate pairs are not modelled.
- Strings.Lower: `ToLowerInvariant` and `OrdinalIgnoreCase` are modelled as ASCII case folding, because the Unicode case tables are out of scope. Non-ASCII characters whose invariant lower case is ASCII are therefore folded differently: the Kelvin sign U+212A lowers to `k` in the source, so the token of "\u212Aernel" is "kernel" there (backend/GraphService.cs:15) but "ernel" in the model.
- Chunk ids and the folder field: each chunk row's own `Guid.NewGuid()` id (backend/Program.cs:117 and :172) and the `folder` field of the `/api/ingest/fs` reply (backend/Program.cs:181) are not modelled; chunk rows are identified by document and index, and the reply by its document ids.
- `char.IsWhiteSpace` and `\s` are the Unicode White_Space set, written out in `Strings.IsWhiteSpace`.
- Node and edge weights are `float` in backend/GraphService.cs:47-48. In the model they are integers, since they only ever hold counts and the constant 1. JavaScript numbers in `buildElements` are integers too, and `nodeLimit` is a natural number.
- `label` is a reserved word in Dafny, so the node field is called `caption`.
- .NET `Dictionary` enumeration and JavaScript `Map` enumeration are modelled as insertion order. This matches both for dictionaries without removals.
- CoOccurrence.BuildCoOccurrence tokenizes all texts before the counting loops. The source tokenizes each text at the start of its iteration. This is equivalent because tokenizing is pure.
- Llm.Generate: the request body, the model name, the temperature and the `Authorization` header are not modelled. The JSON reply is a small tree in which `TryGetProperty` finds the last member of a name.
- `choices[0]` on a JSON value that is not an array throws in the source. It is modelled as falling back to the local summary.
- The timeline's JSON deserialiser is abstract. The model does not relate `Parsed` to the text beyond the three outcomes.
- GraphPanel.ReductionBound states at most `nodeLimit` kept nodes, not the exact count `min(nodeLimit, number of endpoints)`.
- `raw?.nodes || []` treats every falsy value as empty. The model has only a present or an absent list.
- Rendering (Cytoscape, toasts), the React state in GraphPanel.jsx, and the other frontend files are UI and are left out.
- `PdfTextExtractor.Extract` and `ExtractPage` call the PdfPig library and are left out. The model starts from the extracted text.
- async/await is only sequential waiting on I/O, so there is no concurrency to model.
