# Insectopedia: document preparation and context assembly, in Dafny

Insectopedia answers questions about insects by retrieval-augmented generation. This project models the two pieces of its Python backend that are plain string and sequence logic:

- **Preparing the documents** (`backend/preprocess_and_train.py`):
  - `text_clean` turns a value into a trimmed, single-spaced string. A value that is not a string becomes `""`.
  - `chunk_text` cuts the cleaned text into windows of 400 characters. Each window starts 350 characters after the previous one, so neighbours share 50 characters.
  - `ingest_csv_to_docs` turns every CSV row into one document per chunk of its description and habitat. The documents get the ids `"<id>_0"`, `"<id>_1"`, ….
- **Answering a query** (`backend/api.py`):
  - `retrieve_context` receives the nearest-neighbour search's indices and scores, in that order. It drops indices that name no loaded document and keeps a copy of each named document with its score. It then joins the entries as `"<name> (id=<id>): <text>"` with `"\n\n---\n\n"` between them.
  - `query_api` returns that context's answer, or an error with HTTP status 500 when the embedding or the search raised.

The modules follow the program:

| file | module | models |
|---|---|---|
| `wrappers.dfy` | `Wrappers` | `Option` for a CSV field that may be absent; `Result` for the search outcome, which may be an exception |
| `py_strings.dfy` | `PyStrings` | `sep.join(xs)` and `str(n)` for `n >= 0` |
| `text_clean.dfy` | `TextClean` | `text_clean`; `re.sub(r'\s+', ' ', s)` as `Collapse`; `strip` as `StripRight(StripLeft(s))`; `split()` as the reference `Words` |
| `chunking.dfy` | `Chunking` | `chunk_text`, with the specification `Chunks` and the while loop as a method |
| `ingest.dfy` | `Ingest` | the per-row documents of `ingest_csv_to_docs`, with its nested loops as methods |
| `retrieval.dfy` | `Retrieval` | the filter/copy/join of `retrieve_context` and the result shape of `query_api`, as methods of a `Server` class that holds the loaded documents |

Modelling choices:

- **Whitespace.** Python's whitespace is the predicate `IsSpace`. It holds for exactly the characters for which `str.isspace()` is true, which are the ones `\s` matches in a `str` pattern and the ones `strip()` removes.
- **CSV rows.** A CSV row is a record of `Option<string>` fields. `Some(s)` holds the `str()` rendering of the cell, and `None` is a missing column, which `row.get(c, "")` turns into `""`.
- **Scores.** Scores are values of an arbitrary type `S`. They are carried along, never computed on.
- **Search outcome.** The outcome of embedding the question and searching the index is a `Result` parameter: the index and score arrays, or the exception's message.
- **Answer generation.** The generator is a total function parameter. `query_gemini` catches every exception of its own and returns a string in its place.

## Model

Paths are relative to the repository's source directory.

| member | source | states |
|---|---|---|
| PyStrings.Join | insectopedia-ask-me-main/backend/api.py:50 | A non-empty join starts with its first piece. |
| PyStrings.JoinAppend | insectopedia-ask-me-main/backend/api.py:50 | Joining two non-empty lists back to back gives their joins with exactly one separator between them. |
| PyStrings.JoinLength | insectopedia-ask-me-main/backend/api.py:50 | A join is as long as its pieces plus one separator per gap. |
| PyStrings.NatToString | insectopedia-ask-me-main/backend/preprocess_and_train.py:49 | `str(idx)` for a chunk index is a non-empty string of decimal digits with no leading zero. |
| PyStrings.NatToStringRoundTrip | insectopedia-ask-me-main/backend/preprocess_and_train.py:49 | Reading the digits of `str(n)` back gives `n`. |
| PyStrings.NatToStringInjective | insectopedia-ask-me-main/backend/preprocess_and_train.py:49 | Distinct chunk indices render to distinct strings. |
| TextClean.CollapseSingleSpaces | insectopedia-ask-me-main/backend/preprocess_and_train.py:21 | The substitution never lengthens the text and turns a leading whitespace run into one blank. Afterwards every whitespace character is `' '` and no two of them touch. |
| TextClean.StripLeftRemovesSpaces | insectopedia-ask-me-main/backend/preprocess_and_train.py:21 | `lstrip` returns a suffix. Everything it removed is whitespace, and what it returns does not start with whitespace. |
| TextClean.StripRightRemovesSpaces | insectopedia-ask-me-main/backend/preprocess_and_train.py:21 | `rstrip` returns a prefix. Everything it removed is whitespace, and what it returns does not end with whitespace. |
| TextClean.CleanIsClean | insectopedia-ask-me-main/backend/preprocess_and_train.py:18-22 | A value that is not a string cleans to `""`. Any result has no whitespace at either end, and every internal whitespace run in it is exactly one `' '`. |
| TextClean.CollapseOfSingleSpaced | insectopedia-ask-me-main/backend/preprocess_and_train.py:21 | The substitution leaves a single-spaced string unchanged. |
| TextClean.CleanFixpoint | insectopedia-ask-me-main/backend/preprocess_and_train.py:21-22 | `text_clean(s) == s` exactly when `s` is trimmed and single-spaced (both directions). |
| TextClean.CleanIdempotent | insectopedia-ask-me-main/backend/preprocess_and_train.py:21-22 | Cleaning a cleaned value changes nothing. |
| TextClean.CollapseKeepsContent | insectopedia-ask-me-main/backend/preprocess_and_train.py:21 | The substitution keeps every non-whitespace character, in order. |
| TextClean.StripLeftKeepsContent | insectopedia-ask-me-main/backend/preprocess_and_train.py:21 | `lstrip` keeps every non-whitespace character, in order. |
| TextClean.StripRightKeepsContent | insectopedia-ask-me-main/backend/preprocess_and_train.py:21 | `rstrip` keeps every non-whitespace character, in order. |
| TextClean.StripKeepsContent | insectopedia-ask-me-main/backend/preprocess_and_train.py:21 | `strip` keeps every non-whitespace character, in order. |
| TextClean.CleanKeepsContent | insectopedia-ask-me-main/backend/preprocess_and_train.py:18-22 | Cleaning a string keeps exactly its non-whitespace characters, in order. |
| TextClean.Words | insectopedia-ask-me-main/backend/preprocess_and_train.py:21 | The reference `split()`: every word is non-empty and holds no whitespace, and a text starting with a non-space starts its first word. |
| TextClean.CleanIsJoinOfWords | insectopedia-ask-me-main/backend/preprocess_and_train.py:21-22 | A clean string is its own words joined by single blanks. |
| TextClean.WordsOfCollapse | insectopedia-ask-me-main/backend/preprocess_and_train.py:21 | The substitution does not change the words. |
| TextClean.WordsOfStripLeft | insectopedia-ask-me-main/backend/preprocess_and_train.py:21 | `lstrip` does not change the words. |
| TextClean.WordsDropTrailingSpace | insectopedia-ask-me-main/backend/preprocess_and_train.py:21 | A trailing whitespace character does not change the words. |
| TextClean.WordsOfStripRight | insectopedia-ask-me-main/backend/preprocess_and_train.py:21 | `rstrip` does not change the words. |
| TextClean.CleanIsJoinedWords | insectopedia-ask-me-main/backend/preprocess_and_train.py:18-22 | `text_clean(s)` equals `" ".join(s.split())`, an independent reference definition. |
| Chunking.ChunkText | insectopedia-ask-me-main/backend/preprocess_and_train.py:24-36 | `chunk_text` returns the windows `Chunks` of the cleaned value, for a positive window larger than the overlap (the defaults 400 and 50 qualify). |
| Chunking.CutWindows | insectopedia-ask-me-main/backend/preprocess_and_train.py:26-36 | The short-text return and the start/end loop with its `break` produce exactly `Chunks(text)`. |
| Chunking.ChunksFromStep | insectopedia-ask-me-main/backend/preprocess_and_train.py:30-35 | One loop turn appends the clamped slice `text[start:start+size]`, then either stops (the end reached the text's end) or continues from `end - overlap`. |
| Chunking.OffsetIsProduct | insectopedia-ask-me-main/backend/preprocess_and_train.py:35 | After i turns the cursor has advanced `i * (size - overlap)`. |
| Chunking.ChunkFromAt | insectopedia-ask-me-main/backend/preprocess_and_train.py:29-35 | Chunk i of the loop begins i steps after the cursor, inside the text, and is the clamped slice there. Every chunk before the last ends inside the text. With a non-negative overlap, the last chunk reaches the end. |
| Chunking.ChunkAt | insectopedia-ask-me-main/backend/preprocess_and_train.py:25-35 | The same for the list `chunk_text` returns, short texts included. |
| Chunking.ShortTextSingleChunk | insectopedia-ask-me-main/backend/preprocess_and_train.py:26-27 | The result is `[text]` exactly when the text is at most one window long (both directions). This includes `[""]` for empty text. |
| Chunking.ChunkLengths | insectopedia-ask-me-main/backend/preprocess_and_train.py:31-33 | Every chunk is at most `size` long, and every chunk but the last is exactly `size` long. |
| Chunking.ChunkStart | insectopedia-ask-me-main/backend/preprocess_and_train.py:29-35 | Chunk i starts at `i * (size - overlap)` and runs for `size` characters or to the end of the text. |
| Chunking.LastChunkReachesEnd | insectopedia-ask-me-main/backend/preprocess_and_train.py:33-34 | With a non-negative overlap, the last chunk is the whole rest of the text from its offset, so the chunks cover the text. |
| Chunking.ConsecutiveChunksOverlap | insectopedia-ask-me-main/backend/preprocess_and_train.py:32-35 | Neighbouring chunks share exactly `overlap` characters: the tail of one is the head of the next. |
| Chunking.ChunksFromReassemble | insectopedia-ask-me-main/backend/preprocess_and_train.py:30-35 | Round trip for the loop: its chunks from `start` rebuild `text[start:]`. |
| Chunking.ChunksReassemble | insectopedia-ask-me-main/backend/preprocess_and_train.py:25-36 | Round trip: the first chunk, followed by each later chunk without its first `overlap` characters, is the text. |
| Ingest.IngestRows | insectopedia-ask-me-main/backend/preprocess_and_train.py:38-55 | The nested loops produce `DocsOf(rows)`: each row's documents, rows in input order. |
| Ingest.AppendChunkDocs | insectopedia-ask-me-main/backend/preprocess_and_train.py:47-54 | The inner loop appends one document per chunk, in chunk order, after the documents already collected. |
| Ingest.DocsOfAppend | insectopedia-ask-me-main/backend/preprocess_and_train.py:41-54 | The documents of two lists of rows are those of the first list followed by those of the second. |
| Ingest.RowDocsRebuildRow | insectopedia-ask-me-main/backend/preprocess_and_train.py:42-54 | A row yields at least one document. Document k has the id `"<id>_<k>"` and the row's species id, name and taxonomy. The document texts rebuild the cleaned `description + " " + habitat`. |
| Ingest.AfterLastOfDigits | insectopedia-ask-me-main/backend/preprocess_and_train.py:49 | In `"<p>_<digits>"` the part after the last underscore is the digits. |
| Ingest.ChunkIdInjective | insectopedia-ask-me-main/backend/preprocess_and_train.py:49 | Equal document ids have the same species id and the same chunk index. |
| Ingest.DocsOfSpecies | insectopedia-ask-me-main/backend/preprocess_and_train.py:42-50 | Every document's species id is some row's id, and its own id is that species id with a chunk index appended. |
| Ingest.DocIdsDistinct | insectopedia-ask-me-main/backend/preprocess_and_train.py:41-54 | When no two rows share an id, no two documents share an id. |
| Retrieval.Zip | insectopedia-ask-me-main/backend/api.py:43 | `zip` pairs indices and scores by position and stops at the shorter array. |
| Retrieval.KeptPositions | insectopedia-ask-me-main/backend/api.py:43-45 | Lists, in increasing order, exactly the positions whose index is neither negative nor `>= len(docs)`. |
| Retrieval.RetrievedAreKept | insectopedia-ask-me-main/backend/api.py:43-48 | The collected entries are the kept positions in order. Each is a copy of `docs[idx]` tagged with that position's score. |
| Retrieval.RetrievedEmpty | insectopedia-ask-me-main/backend/api.py:44-45 | Nothing is collected exactly when every index is out of range (both directions). |
| Retrieval.RetrievedAppend | insectopedia-ask-me-main/backend/api.py:43-48 | Filtering keeps the order of the search results: entries from earlier hits come first. |
| Retrieval.ContextEmpty | insectopedia-ask-me-main/backend/api.py:50 | The context is `""` exactly when no entry was collected. Otherwise it starts with the first entry's `"<name> (id=<id>): <text>"`. |
| Retrieval.ContextAppend | insectopedia-ask-me-main/backend/api.py:50 | The context of two non-empty lists of entries is their contexts with one `"\n\n---\n\n"` between them. |
| Retrieval.NoContextWithoutHits | insectopedia-ask-me-main/backend/api.py:42-50 | The context is `""` exactly when no index of the search names a loaded document. |
| Retrieval.Server.constructor | insectopedia-ask-me-main/backend/api.py:35 | The server holds the documents it loaded. |
| Retrieval.Server.RetrieveContext | insectopedia-ask-me-main/backend/api.py:42-51 | The loop and the join return the context of the in-range hits of `zip(I[0], D[0])`. The method has no `modifies` clause, so the loaded documents are not changed. |
| Retrieval.Server.QueryApi | insectopedia-ask-me-main/backend/api.py:54-61 | A failed search gives `{"error": message}` with status 500. Otherwise the answer is the generator's reply to the question and the retrieved context, with status 200. |

## Left out

- `load_csv` and pandas row access (`preprocess_and_train.py:15-16,39-41`) are a foreign library. Rows are records whose cells already hold their `str()` rendering. A pandas missing value, which renders as `"nan"`, is therefore just the string `"nan"`.
- `name` and `taxonomy` are stored raw, not as `str(...)`. The model holds them as strings, which is how `api.py:50` prints them.
- `build_faiss_index` and the `__main__` block (`preprocess_and_train.py:57-80`) involve embeddings, floating-point normalisation, FAISS and file I/O. `Retrieval.Server` takes any list of documents shaped like `Ingest.Doc`; no lemma ties that list to `Ingest.DocsOf`.
- The module-level loading in `api.py` (lines 29-35), the CORS setup, `embed_model.encode`, `faiss.normalize_L2` and `index.search` are not modelled: they involve file I/O and foreign numeric code.
  - The search arrives as a `Result` of index and score arrays.
  - `top_k = 3` bounds the length of those arrays and is not checked.
  - Scores are opaque, and `float(score)` is taken to succeed.
- `backend/gemini_client.py` is a wrapper over a remote model. It enters only as the total `generate` parameter.
- The React front end (`src/components/QueryInterface.tsx`, `src/pages/RAGSystem.tsx`) is a UI over an asynchronous `fetch` and is not modelled.
  - A second submit while a request is in flight is blocked only by the button's `disabled` attribute (line 119). `handleSubmit` itself checks only `query.trim()` (line 31).
  - The request body carries the untrimmed `query`, not the trimmed text.
- Chunking.ChunkText: requires `0 < chunkSize` and `overlap < chunkSize`, so the following behaviours of the source are not modelled. The only call uses 400 and 50.
  - With `overlap >= chunk_size` and a text longer than one window, the loop never ends.
  - With `chunk_size < 0`, the slice ends are negative.
  - With `chunk_size == 0` and a negative overlap, the windows are empty (`chunk_text("ab", 0, -1)` gives `["", ""]`).
  - With any parameters and a text no longer than one window, the source returns `[text]` before the loop.
- Chunking.LastChunkReachesEnd, Chunking.ConsecutiveChunksOverlap and Chunking.ChunksReassemble: stated for `overlap >= 0` only. With a negative overlap the windows skip characters, and the loop model still covers that case.
- Chunking.CutWindows: the loop of `chunk_text` runs in its own method after cleaning. `ChunkText` calls it, and the two together are `chunk_text`.
- Ingest.AppendChunkDocs: likewise, the inner `enumerate` loop of `ingest_csv_to_docs` runs in its own method.
- Ingest.IngestRows: takes the already-read rows rather than a CSV path.
- Ingest.DocIdsDistinct: document ids are unique only when row ids are. The source does not check that row ids are unique, so the lemma assumes it.
- Retrieval.Server.QueryApi: only an exception from the embedding or the search is modelled. Once the search has returned, the filtered loop cannot raise, because the guard keeps `docs[idx]` in range and every document has `name`, `id` and `text`.
