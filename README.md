# Retrieval core of a small retrieval-augmented QA demo, in Dafny

This project models the two algorithmic parts of a local question-answering demo.

- **Ingestion** (`ingestion.dfy`, module `Ingestion`) is written imperatively, as the source is:
  - `ChunkText` is the `while` loop of `chunk_text`. It cuts a string into windows of at most `max_chars` characters, and each window starts `overlap` characters before the previous one ended.
  - `CsvDocs` is the `for` loop of the CSV branch of `load_file_docs`. It turns each data row into a document whose text is `"h1: v1, h2: v2"` and whose `row` label counts from 1.
  - `IngestDocs` is the pair of nested loops of `ingest_data`. It flattens documents into two parallel lists: chunk texts, and chunk metadata (`source`, `chunk_index`, and `row` when the document has one).

  Each method is proved equal to a specification function: `Chunks`/`ChunksFrom`, the closed form of the CSV rows, and `IndexTexts`/`IndexMetas`. The lemmas then prove, about those functions, what the code promises.
- **Retrieval** (`rag_agent.dfy`, module `RagAgent`) is pure, as the source is:
  - `TopK` models `argsort(-sims)[:k]` over a given sequence of scores.
  - `Retrieve` builds the `{text, meta, score}` records of `retrieve`.
  - `Context` is the grounding string of `answer_and_propose`.
  - `MockResponse` and `AnswerAndProposeMock` are its mock-mode branch.

`text.dfy` (module `Text`) holds Python's `sep.join`, `s[:n]`, ASCII `lower()` and the `in` substring test, with lemmas about them. `wrappers.dfy` holds `Option` and `Result`.

Scores are Dafny `real`s supplied by the caller. They stand in for the cosine similarities that the embedding model and numpy would compute.

Three behaviours one might expect of such a system are not what the code does, and the model follows the code:
- Ties in the ranking are sometimes expected to go to the lower store index. `np.argsort` with its default sort promises no tie order, so no lemma here states one.
- Loading a store whose lists have mismatched lengths might be expected to raise a corrupt-store error. `load_store` checks nothing. What can actually fail is the list comprehension in `retrieve`: it raises `IndexError` when a selected index has no stored text or metadata. `Retrieve` models that as `Err(IndexOutOfRange(i))`.
- `chunk_text` might be expected to fail fast when `overlap >= max_chars`. A text of at most `max_chars` characters is still returned whole, before the loop. A longer text makes the loop run forever. `LoopNeverEnds` proves that. `ChunkText` accepts any overlap for a text that fits and requires `overlap < max_chars` otherwise.

## Model

| member | source | states |
|---|---|---|
| `Ingestion.ChunkText` | ingestion.py:49-61 | The loop's output equals the window specification `Chunks`. A text of at most `max_chars` characters, including the empty text, gives exactly `[text]` whatever the overlap. The loop invariant keeps `start` equal to `LoopStart` of the number of passes. |
| `Ingestion.ChunksFrom` | ingestion.py:53-60 | Definition of the loop from offset `start`. Its properties are stated by `ChunksFromAt`, `ChunksFromLast` and `ChunksFromCover`. |
| `Ingestion.Chunks` | ingestion.py:49-61 | Definition of `chunk_text`. Its properties are stated by `ChunkText`, `ChunkWindows`, `ChunksReachEnd`, `ChunksOverlap` and `ChunksCover`. |
| `Ingestion.ChunksFromAt` | ingestion.py:53-60 | From any loop offset `start`, window `i` begins at `start + i*(max_chars-overlap)` inside the text and is the text up to `max_chars` further, clipped. Every window except the last stops before the end of the text. |
| `Ingestion.ChunkWindows` | ingestion.py:53-60 | There is at least one chunk. Chunk `i` is `text[i*(max_chars-overlap) .. min(that+max_chars, len(text))]`, so no chunk exceeds `max_chars`. |
| `Ingestion.ChunksFromLast` | ingestion.py:54-59 | With `overlap >= 0`, the last window the loop takes from offset `start` reaches the end of the text. |
| `Ingestion.ChunksReachEnd` | ingestion.py:54-59 | With `overlap >= 0`, the last chunk ends exactly at `len(text)` and every earlier chunk ends before it. |
| `Ingestion.ChunksOverlap` | ingestion.py:55-60 | With `overlap >= 0`, a non-last chunk has exactly `max_chars` characters. Its last `overlap` characters are the first `overlap` characters of the next chunk. |
| `Ingestion.ChunksFromCover` | ingestion.py:54-60 | With `overlap >= 0`, every position from `start` on lies in some window of the loop. |
| `Ingestion.ChunksCover` | ingestion.py:54-60 | With `overlap >= 0`, every character position of the text lies inside at least one chunk. |
| `Ingestion.ChunksOfThousand` | ingestion.py:49-61 | A 1000-character text with the defaults 800/100 gives exactly two chunks, `[0,800)` and `[700,1000)`. |
| `Ingestion.LoopStart` | ingestion.py:53-60 | Definition of the loop's `start` after `n` passes that did not break, set at lines 55 and 60. Its properties are stated by `LoopStartIsChunkStart` and `LoopNeverEnds`, and `ChunkText`'s loop invariant ties it to the loop. |
| `Ingestion.LoopStartIsChunkStart` | ingestion.py:53-60 | After `n` non-breaking passes, the loop's `start` is `n*(max_chars-overlap)`, for any parameters. |
| `Ingestion.LoopNeverEnds` | ingestion.py:50-60 | Take `overlap >= max_chars` and a text longer than `max_chars`, so the early return is not taken. Then after any number of passes, `start` is `n*(max_chars-overlap)`, which is at most 0. The loop condition still holds and the window never reaches the end. So `chunk_text` does not terminate. |
| `Ingestion.Fields` | ingestion.py:39 | `zip(header, row)` stops at the shorter list. Field `j` is `header[j] + ": " + row[j]`. |
| `Ingestion.RowText` | ingestion.py:39 | Definition of one row's text. Its properties are stated by `Fields`, `RowTextTwoFields` and the `Join` lemmas. |
| `Ingestion.CsvRowDocs` | ingestion.py:35-40 | Definition of the documents of a CSV file. Its closed form is stated by `CsvDocs`, and an end-to-end case by `IngestCsvExample`. |
| `Ingestion.CsvDocs` | ingestion.py:31-40 | The loop's output equals `CsvRowDocs(rows, source)`. No rows gives `[]`. A header-only file gives no documents. Data row `i` (1-based) gives the document with text `", ".join` of its fields, the file's source, and `row = i`. |
| `Ingestion.RowTextTwoFields` | ingestion.py:39 | Header `h1,h2` with row `v1,v2` gives the text `"h1: v1, h2: v2"`. |
| `Ingestion.IngestDocs` | ingestion.py:69-78 | The nested loops produce exactly `IndexTexts(docs)` and `IndexMetas(docs)`. Both lists have one entry per chunk, so their lengths are equal. |
| `Ingestion.DocChunks` | ingestion.py:72 | Definition of `chunk_text(doc["text"])` with the defaults 800/100. Its properties are stated by `IndexAt` and the chunk lemmas. |
| `Ingestion.DocMetas` | ingestion.py:74-78 | Definition of the metadata of a document's chunks, `{source, chunk_index: i}` plus `row` when the document has one. Its properties are stated by `IndexAt`. |
| `Ingestion.IndexTexts` | ingestion.py:71-75 | Definition of `all_texts`. Its properties are stated by `IngestDocs`, `IndexStep`, `IndexLengths` and `IndexAt`. |
| `Ingestion.IndexMetas` | ingestion.py:71-78 | Definition of `metadatas`. Its properties are stated by `IngestDocs`, `IndexStep`, `IndexLengths` and `IndexAt`. |
| `Ingestion.IndexStep` | ingestion.py:71-78 | Taking one more document appends exactly its chunks to the texts and their metadata to the metadata list. |
| `Ingestion.IndexLengths` | ingestion.py:73-78 | Both flattened lists have length equal to the total chunk count. |
| `Ingestion.IndexAt` | ingestion.py:71-78 | Chunk `i` of document `d` is at position `offset(d) + i` of both lists. Its metadata is the document's source with `chunk_index = i`, and it has a `row` exactly when the document has one. |
| `Ingestion.DocOffsetStep` | ingestion.py:71-73 | Document `d + 1`'s chunks start right after document `d`'s, so the lists follow document order, then chunk order. |
| `Ingestion.IndexLocate` | ingestion.py:69-78 | Every position of the lists falls within some document's run of chunks, so the lists hold nothing but those chunks. |
| `Ingestion.DocOffsetMono` | ingestion.py:71-73 | A later document's run never starts before an earlier one's. |
| `Ingestion.IndexRunsDisjoint` | ingestion.py:71-78 | No position lies in the runs of two different documents, so each list entry comes from exactly one document. |
| `Ingestion.IngestCsvExample` | ingestion.py:35-40 | A CSV file with header `a,b` and rows `1,2` and `3,4` becomes the documents `a: 1, b: 2` (row 1) and `a: 3, b: 4` (row 2). These are two entries with `chunk_index` 0 and rows 1 and 2. |
| `RagAgent.InsertByScore` | rag_agent.py:32 | One insertion step of the ranking. The result is one longer, holds exactly the old indices plus the new one, and stays within the store. |
| `RagAgent.InsertByScoreKeepsRanking` | rag_agent.py:32 | Insertion keeps the list ordered by non-increasing score. |
| `RagAgent.InsertByScoreKeepsDistinct` | rag_agent.py:32 | Insertion of an index not yet listed keeps the list free of repeats. |
| `RagAgent.RankIndices` | rag_agent.py:32 | The ranking of the first `n` indices has length `n` and holds exactly the indices `0..n-1`. |
| `RagAgent.RankIndicesIsRanking` | rag_agent.py:32 | `argsort(-sims)` is a permutation of `0..N-1` with non-increasing scores. |
| `RagAgent.TopK` | rag_agent.py:32 | Definition of `argsort(-sims)[:k]`. Its properties are stated by `TopKIsTopK`. |
| `RagAgent.TopKIsTopK` | rag_agent.py:32 | `argsort(-sims)[:k]` has `min(k, N)` entries, and `k = 0` gives `[]`. The indices are distinct, valid and in non-increasing score order. Every selected score is at least every unselected score. |
| `RagAgent.BuildHits` | rag_agent.py:33 | Definition of the result comprehension. Its properties are stated by `BuildHitsSpec`. |
| `RagAgent.Retrieve` | rag_agent.py:28-34 | Definition of `retrieve` over given scores. Its properties are stated by `RetrieveSpec`. |
| `RagAgent.BuildHitsSpec` | rag_agent.py:33 | The comprehension succeeds iff every selected index has a stored text and metadata. Hit `j` is then `{texts[idx[j]], metas[idx[j]], sims[idx[j]]}` and there are no other hits. Otherwise the error names a selected index that is out of range. |
| `RagAgent.RetrieveSpec` | rag_agent.py:28-34 | `retrieve` fails only on an unstored selected index, which cannot happen when texts and metadata cover every score. It returns `min(k, N)` records of the top-k indices in order. Scores never increase, and no unselected entry scores higher than a returned one. `k = 0` and an empty store give `[]`. |
| `RagAgent.ContextEntry` | rag_agent.py:39 | Definition of one context entry. Its properties are stated by `ContextEntryShape`. |
| `RagAgent.Context` | rag_agent.py:39 | Definition of the joined context. Its properties are stated by `ContextAppend` and `ContextLayout`. |
| `RagAgent.SourceLabel` | rag_agent.py:39 | Definition of `meta.get('source', 'doc')`. Its properties are stated by `ContextEntryShape`. |
| `RagAgent.ContextEntryShape` | rag_agent.py:39 | An entry is `"[" + source + "] "` followed by exactly `text[:800]`, the first `min(800, len(text))` characters of the hit's text. Its length is the label's plus 3 plus that minimum. A missing source shows as `doc`. |
| `RagAgent.ContextAppend` | rag_agent.py:39 | No hits give `""` and one hit gives its entry. Each further hit appends `"\n\n"` and its entry, so entries come in result order. |
| `RagAgent.ContextLayout` | rag_agent.py:39 | Entry `j` sits at its offset in the context. A blank line follows it unless it is last, and the last entry ends the context. |
| `RagAgent.MatchesQ3` | rag_agent.py:43-44 | Definition of the mock test with both disjuncts. Its meaning is stated by `MatchesQ3Iff`. |
| `RagAgent.MockResponse` | rag_agent.py:41-54 | Definition of the mock branch. Its properties are stated by `MockResponseSpec`. |
| `RagAgent.AnswerAndProposeMock` | rag_agent.py:37-54 | Definition of mock-mode `answer_and_propose` over given scores. Its properties are stated by `AnswerAndProposeMockSpec`. |
| `RagAgent.MatchesQ3Iff` | rag_agent.py:43-44 | The mock test holds iff `lower(question)` contains `"top three customer complaints"`. The second disjunct is subsumed. |
| `RagAgent.MockResponseSpec` | rag_agent.py:41-54 | The response always carries the given context as `retrieved_context`. When the lowered question contains the Q3 phrase, it is exactly the canned Q3 answer and actions; otherwise it is exactly the fallback answer and action. |
| `RagAgent.AnswerAndProposeMockSpec` | rag_agent.py:37-54 | Mock mode fails only where retrieval fails. Otherwise `retrieved_context` is the context of the retrieved hits, and the answer and actions are the Q3 pair exactly when the lowered question contains the Q3 phrase, else the fallback pair. With `k = 0` the context is empty. |
| `Text.Take` | rag_agent.py:39 | `s[:n]` has `min(n, len(s))` characters and is a prefix of `s`. |
| `Text.Join` | rag_agent.py:39 | Definition of `sep.join`. Its properties are stated by `JoinSnoc`, `JoinPartAt`, `JoinSepAfter` and `JoinLength`. |
| `Text.JoinSnoc` | rag_agent.py:39 | `sep.join(parts + [x])` is `sep.join(parts) + sep + x` for non-empty `parts`. |
| `Text.JoinPartAt` | rag_agent.py:39 | Part `j` of a join sits at offset `sum(len(parts[..j])) + j*len(sep)`. |
| `Text.JoinSepAfter` | rag_agent.py:39 | Every part but the last is followed by exactly one separator. |
| `Text.JoinLength` | rag_agent.py:39 | The last part ends the joined string. |
| `Text.Lower` | rag_agent.py:43 | Lower-casing keeps the length and maps each character through ASCII lower-casing. |
| `Text.Contains` | rag_agent.py:44 | Definition of the `in` substring test as a scan. Its meaning is stated by `ContainsIff`. |
| `Text.ContainsIff` | rag_agent.py:44 | The substring test holds iff the pattern occurs at some index of the string. |
| `Text.ContainsPrefixOf` | rag_agent.py:44 | A string that contains `q` contains every prefix of `q`. |
| `Text.ContainsEitherOfPrefix` | rag_agent.py:44 | When `p` is a prefix of `q`, `p in s or q in s` holds exactly when `p in s` does. |

## Left out

- File enumeration and reading in `ingest_data` and `load_file_docs`: directory listing, PDF extraction, reading `.txt`/`.md` files and the best-effort fallback with its skip message. These are I/O and foreign libraries. `IngestDocs` takes the already-extracted documents as input.
- CSV parsing itself (quoting, newlines inside fields): that is the `csv` module's job. `CsvDocs` takes the rows the reader produced.
- Embedding with the sentence-transformer model, and `cosine_sim`. Both are a foreign model and floating-point numpy code; a zero-norm row there gives NaN. `Retrieve` takes the similarity scores as input.
- Persistence (`np.save`, `json.dump`) and `load_store`: file I/O. The lists `IngestDocs` returns are what would be written.
- The live OpenAI path of `answer_and_propose` and the reading of environment flags. These are network and environment. The model covers the mock branch only.
- The Streamlit user interface.
- `Ingestion.ChunkText`: for a text longer than `max_chars`, requires `0 <= max_chars` and `overlap < max_chars`. With `overlap >= max_chars` and such a text the source never terminates; `LoopNeverEnds` states that instead of a method. A text of at most `max_chars` characters is accepted with any overlap, as the source returns it before the loop. A negative `max_chars` would make Python count slice bounds from the end of the text, which is not modelled. A negative overlap is allowed. It terminates and skips characters, and the overlap, coverage and end lemmas exclude it.
- `RagAgent.TopK`: negative `k` is not modelled. In Python, slicing with a negative `k` drops entries from the end. `k` is a `nat`.
- `RagAgent.TopK`: ties are placed lower index first (a stable insertion ranking). `np.argsort`'s default sort promises no tie order, so no lemma states the tie order. Every proved property holds whichever order ties take.
- `RagAgent.RetrieveSpec`: scores are exact reals. Float rounding and NaN ordering in `argsort` are not modelled.
- `Text.Lower`: lower-cases ASCII `A`-`Z` only. Python's `str.lower` also maps other Unicode letters.
- `RagAgent.BuildHitsSpec`: on failure it states that the reported index is selected and out of range, but not that it is the first such index.
