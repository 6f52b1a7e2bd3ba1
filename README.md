# EnergyBot RAG: verified model of the answer post-processing and the benchmark scoring

EnergyBot answers questions about Latvenergo's financial and strategy
documents. It retrieves passages with a query engine and streams a
language-model answer into a Streamlit chat. The repository's own logic
lives in two scripts, and this project models it in Dafny:

- **The chat front end** (`main_ui.py`). Each prompt turn records the
  user's prompt and gathers the streamed reply chunks into one response.
  The response is then split into the model's reasoning block
  (`<think>…</think>`) and the final answer. Python's `in`, `split`,
  `replace` and `strip` are modelled exactly. The turn then lists one
  citation per retrieved source node, using defaults for missing
  metadata. Finally the answer is recorded in the history.
- **The benchmark** (`benchmark.py`). For each case of the golden dataset,
  the engine's reply gets a retrieval hit, a fact check and a one-line
  preview, giving one result row per case.

Modules:

| file | module | what it holds |
|---|---|---|
| `wrappers.dfy` | `Wrappers` | `Option` (Python's `None` or a value) |
| `py_strings.dfy` | `PyStrings` | `in`, `find`, `split`, `join`, `replace`, `strip` and `[:n]` over `seq<char>`, with their laws |
| `sources.dfy` | `Sources` | a retrieved source node, and `dict.get` |
| `think_split.dfy` | `ThinkSplit` | the reasoning/answer split |
| `source_audit.dfy` | `SourceAudit` | the citation shown for each source node |
| `chat_session.dfy` | `ChatUi` | the session history and the streaming loop (class `ChatSession`) |
| `benchmark.dfy` | `Benchmark` | the scoring rules and the results loop |

Strings are sequences of Unicode scalar values (Dafny's `char`). Python's
`str` may also hold lone surrogate code points (U+D800–U+DFFF), which this
model cannot represent. The
engine's replies are parameters of the model: the streamed chunks and
source nodes for a chat turn, and one `Response` per test case for the
benchmark. A metadata value is represented by the text it is shown as.

What the code does, as modelled:
- Only the tag pair `<think>`/`</think>` is recognised, and only in lower
  case.
- The split happens only when both tags occur, in either order.
- A response without both tags is shown unchanged, not stripped.
- There is no replacement of empty answers by a "not found" message.
- The default file name is "Dokuments".

## Model

| member | source | states |
|---|---|---|
| `PyStrings.IndexOf` | main_ui.py:57 | `find`: -1 exactly when the substring is absent; otherwise the substring occurs at the result and nowhere before it |
| `PyStrings.SplitOn` | main_ui.py:57 | `split` gives at least one piece; exactly one piece iff the separator is absent; no piece contains the separator |
| `PyStrings.SplitJoinRoundTrip` | main_ui.py:57 | joining the pieces of a split with the separator gives the input back |
| `PyStrings.SplitHead` | main_ui.py:57-59 | the first piece is the prefix that stops at the first separator: it holds no separator and is all of the input or followed by a separator |
| `PyStrings.ReplaceIsJoinOfSplit` | main_ui.py:59 | the left-to-right `replace` scan equals `repl.join(s.split(pat))` |
| `PyStrings.ReplaceAbsent` | main_ui.py:59 | `replace` leaves a string without the pattern unchanged |
| `PyStrings.ReplaceCharwise` | benchmark.py:63 | replacing one character by another keeps the length and maps each character on its own |
| `PyStrings.StripLeft` | main_ui.py:59-60 | the result is a suffix, everything removed is whitespace, and it does not start with whitespace |
| `PyStrings.StripRight` | main_ui.py:59-60 | the result is a prefix, everything removed is whitespace, and it does not end with whitespace |
| `PyStrings.Strip` | main_ui.py:59-60 | the result is the input with a run of whitespace cut from each end and nothing else: a slice `s[i..j]` with only whitespace before `i` and after `j`, and no whitespace at either end of the result; it is empty iff the input is all whitespace |
| `PyStrings.StripIdempotent` | main_ui.py:59-60 | stripping twice is stripping once |
| `PyStrings.Prefix` | main_ui.py:81 | `s[:n]` is a prefix of `s` of length `min(n, len(s))` |
| `ThinkSplit.SplitThinking` | main_ui.py:55-69 | reasoning is split off iff both `<think>` and `</think>` occur (case-sensitive, any order); then the answer never contains `</think>`; otherwise the answer is the response unchanged |
| `ThinkSplit.SplitByIndex` | main_ui.py:57-60 | the reasoning is the text before the first `</think>` with every `<think>` removed, stripped; the answer is the text from there to the second `</think>` or the end, stripped; the split always has a second part |
| `ThinkSplit.TextAfterSecondCloseDropped` | main_ui.py:57-60 | text after a second `</think>` is dropped: appending to such a response changes neither reasoning nor answer |
| `ThinkSplit.FirstCloseAfterReasoning` | main_ui.py:57 | in `<think>x</think>y` with no `</think>` in `x`, the first `</think>` is the one after `x` |
| `ThinkSplit.TaggedRoundTrip` | main_ui.py:56-60 | `<think>x</think>y` (no tags inside `x`, no closing tag in `y`) gives reasoning `strip(x)` and answer `strip(y)` |
| `ThinkSplit.CloseBeforeOpen` | main_ui.py:56-60 | a closing tag before the opening tag still takes the split branch, with empty reasoning and the answer running to the next `</think>` |
| `SourceAudit.Cite` | main_ui.py:75-81 | a missing `file_name` shows "Dokuments", a missing `page_no` shows "N/A", an absent or zero score shows "N/A"; the preview is the first `min(600, len)` characters of the passage followed by "..." |
| `SourceAudit.AuditSources` | main_ui.py:73-81 | one citation per source node, in order, numbered from 1 |
| `ChatUi.Concat` | main_ui.py:48-51 | the gathered response starts with the first chunk, and is empty iff every chunk is empty |
| `ChatUi.ConcatAppend` | main_ui.py:48-51 | joining two consecutive groups of chunks is joining each group and concatenating the results |
| `ChatUi.StreamedTextIsPrefix` | main_ui.py:50-52 | the text shown while streaming is always a prefix of the final response |
| `ChatUi.TurnKeepsAlternation` | main_ui.py:36-85 | a turn appends a user entry and then an assistant entry, so a history of prompt/answer pairs stays one |
| `ChatUi.ChatSession.constructor` | main_ui.py:26-27 | a new session starts with an empty history |
| `ChatUi.ChatSession.ReceiveStream` | main_ui.py:48-51 | `full_response` ends as the in-order concatenation of all streamed chunks |
| `ChatUi.ChatSession.Ask` | main_ui.py:35-85 | an empty prompt changes nothing; otherwise the history grows by exactly the prompt and then the final answer, earlier entries unchanged, so a history of prompt/answer pairs stays one; the turn shows the split of the concatenated stream and one citation per source |
| `Benchmark.RetrievedFiles` | benchmark.py:49 | one file name per source node, in order, "" where `file_name` is missing |
| `Benchmark.AnyContains` | benchmark.py:50 | `any(sub in f for f in files)` holds iff some file name contains `sub` |
| `Benchmark.RetrievalHit` | benchmark.py:50-52 | the hit is 0 or 1; it is 1 iff some file name contains the expected source, or the expected source is "N/A" and nothing was retrieved |
| `Benchmark.OutOfScopeWithFiles` | benchmark.py:50-52 | with "N/A" expected and files retrieved, the hit is 1 iff some file name contains "N/A" |
| `Benchmark.MissWithoutRetrieval` | benchmark.py:50-52 | an expected source other than "N/A" with nothing retrieved scores 0 |
| `Benchmark.FactCheck` | benchmark.py:56 | the fact check is 0 or 1, and 1 iff the expected fact is a substring of the response text |
| `Benchmark.ResponsePreview` | benchmark.py:63 | the preview has no newline, is the first `min(100, len)` characters with each newline turned into a space, then "...", so at most 103 characters |
| `Benchmark.ScoreCase` | benchmark.py:46-64 | one case's row: the case's query, a 0/1 retrieval hit that is 1 iff a retrieved file name contains the expected source or "N/A" is expected and nothing was retrieved, a 0/1 fact check that is 1 iff the reply contains the expected fact, and the preview `text[:100].replace("\n", " ") + "..."` of the reply (`ResponsePreview`), without newlines and at most 103 characters |
| `Benchmark.RunBenchmark` | benchmark.py:37-64 | one row per dataset case, in dataset order, each the case's score, with hit and fact values 0 or 1 |
| `Benchmark.GoldenHitsWithoutRetrieval` | benchmark.py:7-28 | on the golden dataset, a reply that retrieved nothing scores a hit only on the out-of-scope question |

`PyStrings.Contains` (Python's `in`, main_ui.py:56, benchmark.py:50, 56),
`Sources.MetaGet` (`dict.get`, main_ui.py:76-77, benchmark.py:49; its
contract is `dict.get`'s own behaviour) and `PyStrings.ReplaceAll` (`str.replace`, main_ui.py:59, benchmark.py:63)
are definitions rather than claims. `Contains` is characterised by
`PyStrings.IndexOf`. `ReplaceAll` is specified by `PyStrings.ReplaceIsJoinOfSplit`,
`PyStrings.ReplaceAbsent` and `PyStrings.ReplaceCharwise`, and by the callers
that use them (`ThinkSplit.TaggedRoundTrip`, `Benchmark.ResponsePreview`).

## Left out

- Streamlit rendering: page setup, CSS, spinners, containers, expanders, the re-display of past messages and the `"▌"` cursor (main_ui.py:5-23, 29-32, 37-44, 52, 62-66, 69, 72, 80-82). This is presentation only; the values shown are modelled.
- engine.py: it configures the embedding model and Ollama and builds a streaming query engine that retrieves the top 5 passages (engine.py:79-90). It adds no query expansion, no reranking and no metadata flattening ("HyDE + Reranking" at main_ui.py:22 is only a spinner label). The index build-or-load test (engine.py:63-75) is left out because it only wraps library calls. The query engine's replies are inputs to the model.
- The language model and retrieval calls (`query_engine.query`) and the connection checks in test_rag_connection.py and test_rag_cases.py: these are external services.
- Floating point: the score's 3-decimal formatting (a score is kept as an exact real or as absent), a NaN score (truthy in Python), latency timing and its rounding, and the mean latency and fact accuracy (benchmark.py:40-44, 60, 71-75).
- Metadata values that are not strings: each value is represented by the text it is shown as. This also covers the benchmark's `in` test (benchmark.py:50): the model searches the value's text, while Python raises `TypeError` when a `file_name` value is not a string.
- pandas output, the CSV file and `print` (benchmark.py:31-32, 67-78), and inspect_db.py: I/O.
- `Benchmark.RunBenchmark` requires one reply per dataset case. This stands in for calling the engine once per case.
- `ChatUi.ChatSession.Ask` does not model a failing engine call. The source appends the user entry (main_ui.py:36) before `query_engine.query` (main_ui.py:46) and before reading the stream (main_ui.py:50). If either raises, for example on the language model's 600-second timeout (engine.py:34), the assistant entry (main_ui.py:85) is never appended and the history keeps an unpaired prompt. The model takes the reply as a parameter that always arrives, so its alternation guarantee covers only completed turns.
- `ChatUi.ChatSession.Ask` treats a missing chat input (`None`) like an empty prompt: both are falsy, and nothing happens.
