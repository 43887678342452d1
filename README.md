# Website chatbot: text chunker and embedding alignment

This project is a Dafny model of the retrieval preparation in the website chatbot's
vector store (`vector_store.py`). It covers two operations.

- **`process_text(text, chunk_size=1000, chunk_overlap=200)`** (`TextChunker.ProcessText`).
  Absent or empty text gives no chunks. Otherwise every `\n` and every `\r` becomes a
  space. The cleaned text is then cut by `for i in range(0, len(text), chunk_size - chunk_overlap)`
  into the slices `text[i:i + chunk_size]`. Only slices longer than 50 characters are kept.
- **The embedding loop of `create_faiss_index(chunks)`** and the step that reads the
  matrix dimension (`EmbeddingIndex.CollectEmbeddings`, `EmbeddingIndex.Dimension`,
  `EmbeddingIndex.CreateIndex`). The loop calls the embedding service once per chunk,
  in order, so row `k` of the matrix handed to the index is the embedding of chunk `k`.
  The chat page relies on this when it turns search results back into chunk text.

Modules:

- `Wrappers` (`wrappers.dfy`): `Option` for Python's `None`, and `Result` for an
  operation that returns a value or raises.
- `Arithmetic` (`arithmetic.dfy`): division facts used by the proofs.
- `TextChunker` (`text_chunker.dfy`): cleaning, Python slice semantics, the chunking
  loop (`CutWindows`, called by `ProcessText`), and its specification as `Chunks`.
  `Chunks` is the window at every offset in `KeptStarts`. `KeptStarts` is a recursive
  function over the loop's offsets alone.
- `EmbeddingIndex` (`embedding_index.dfy`): the embedding service as a parameter,
  the collecting loop, and the dimension step.

Modelling decisions:

- The text argument is `Option<string>`. `None` and `Some("")` are the two falsy
  values that `if not text` rejects.
- The stride can be any integer, because the code does not check it before the loop.
  A zero stride makes `range` raise, so the model returns `Err(RangeStepZero)`. This
  happens only for non-empty text, because the emptiness check comes first. A
  negative stride makes the range from 0 upward empty, so the result is no chunks.
- Slicing follows Python exactly (`TextChunker.PySlice`). A negative end bound counts
  from the end of the text, and every end bound is clipped to the text. This keeps
  `process_text` faithful even for a negative `chunk_size`.
- The embedding service (`get_embeddings`, which re-raises any failure) is a
  parameter `embed: string -> Result<Embedding, string>`. The first failure ends
  the loop, and the error propagates with no partial list.
- `np.array(embeddings).astype('float32').shape[1]` becomes `Dimension`. An empty
  list has no second axis, so the model gives `NoRows`. Rows of unequal length do
  not form a matrix, so the model gives `RaggedRows`. Otherwise the result is the
  common row length.

## Model

| member | source | states |
|---|---|---|
| `TextChunker.ReplaceChar` | vector_store.py:21 | `s.replace(c, d)` keeps the length; every `c` becomes `d` and every other character is unchanged |
| `TextChunker.Clean` | vector_store.py:21 | cleaning preserves length, turns each `\n`/`\r` into a space, leaves all other characters alone, and leaves no line break |
| `TextChunker.PySlice` | vector_store.py:26 | `s[i:j]` has the length Python gives it: the end bound, counted from the end when negative and clipped to the text, minus the start, or 0 when that end is not past the start |
| `TextChunker.PySliceIsPiece` | vector_store.py:26 | `s[i:j]` is always the contiguous piece of `s` that starts at `i`, whatever the sign of `j` |
| `TextChunker.PySliceNegativeEnd` | vector_store.py:26 | for a negative `j`, `s[i:j]` is `s[i..len(s)+j]` when that end is not before the start, and empty otherwise |
| `TextChunker.PySliceIsSubsequence` | vector_store.py:26 | with an end bound not below the start, `s[i:j]` is the subsequence `s[i..min(j, len(s))]` |
| `TextChunker.WindowLenMonotone` | vector_store.py:26 | whatever the sign of `chunk_size`, a window gets no longer as its start moves right |
| `TextChunker.KeptStarts` | vector_store.py:25-28 | every offset at which the loop keeps a chunk lies in `start..n-1` |
| `TextChunker.ProcessText` | vector_store.py:5-30 | `None`/empty text gives `[]`. For non-empty text: a zero stride raises, a negative stride gives `[]`, and a positive stride gives exactly `Chunks(cleaned text)`, the window at every kept offset |
| `TextChunker.CutWindows` | vector_store.py:24-28 | for a positive stride, the loop returns exactly `Chunks`: the window at every offset of `range(0, len(text), step)` that is longer than 50 characters, in order |
| `TextChunker.DefaultChunks` | vector_store.py:5-28 | with the defaults 1000 and 200, chunk `j` starts at `800*j`, is `text[800*j..min(800*j+1000, len(text))]` and has 51 to 1000 characters; a chunk that is not last has at least 800 characters, its part past 800 is a prefix of the next chunk, and a full chunk shares its last 200 characters with the next one |
| `TextChunker.StartAtProduct` | vector_store.py:25 | the `q`-th offset of `range(start, n, step)` is `start + q*step` |
| `TextChunker.StartAtMultiple` | vector_store.py:25 | the offsets of `range(0, n, step)` are multiples of the stride and strictly increase |
| `TextChunker.KeptStartsLong` | vector_store.py:26-27 | every kept offset has a window longer than 50 characters |
| `TextChunker.KeptStartsEmpty` | vector_store.py:25-28 | once a window is dropped, no later window is kept |
| `TextChunker.KeptStartsAt` | vector_store.py:25-28 | the `j`-th kept offset is the `j`-th offset of the range, so kept chunks leave no gap in the stride sequence |
| `TextChunker.KeptStartsNext` | vector_store.py:25-28 | consecutive kept offsets are exactly one stride apart |
| `TextChunker.KeptStartsComplete` | vector_store.py:25-28 | no offset of the range whose window is longer than 50 characters is skipped |
| `TextChunker.KeptStartsCount` | vector_store.py:25 | at most `ceil((n - start) / step)` offsets are kept |
| `TextChunker.ChunkBounds` | vector_store.py:26-28 | every chunk is longer than 50 characters, no longer than the text, and at most `chunk_size` long when `chunk_size >= 0` |
| `TextChunker.ChunkAt` | vector_store.py:25-28 | chunk `j` is `text[i:i+chunk_size]` at the `j`-th offset `i < len(text)`; for `chunk_size >= 0` it is `text[i..min(i+chunk_size, len(text))]` |
| `TextChunker.ChunksComplete` | vector_store.py:25-28 | every offset of the range whose window is longer than 50 characters yields a chunk |
| `TextChunker.ChunkCount` | vector_store.py:25-28 | at most `ceil(len(text) / step)` chunks; none exactly when the first window has at most 50 characters, so none whenever the text has at most 50 |
| `TextChunker.WindowsOverlap` | vector_store.py:25-26 | the window one stride later starts with the rest of the earlier window past the stride; for a full-size earlier window that rest is `chunk_size - step` characters long |
| `TextChunker.ChunkOverlap` | vector_store.py:25-26 | consecutive chunks overlap; when the first is full length, its last `chunk_overlap` characters are the first `chunk_overlap` characters of the next |
| `EmbeddingIndex.CollectEmbeddings` | vector_store.py:43-46 | succeeds iff every chunk embeds; then entry `k` is `embed(chunk k)` and the lengths match; otherwise the error is that of the first failing chunk |
| `EmbeddingIndex.Dimension` | vector_store.py:49-52 | succeeds iff there is at least one row and all rows have one length, which is the result; empty gives `NoRows`, unequal lengths give `RaggedRows` |
| `EmbeddingIndex.CreateIndex` | vector_store.py:43-52 | succeeds iff there are chunks, all embed and all embeddings share one length; then row `k` is chunk `k`'s embedding of the reported dimension; no chunks gives `NoRows`, and chunks that all embed to vectors of different lengths give `RaggedRows` |

## Left out

- Building and searching the FAISS `IndexFlatL2` (vector_store.py:53-56 and 58-76): this is library code that is not part of this model. `IndexInput` stands for the matrix handed to `index.add`.
- The float32 conversion (vector_store.py:49): embeddings are sequences of reals, with no rounding.
- The embedding and generation service calls in `llm_utils.py`: these are network calls. The embedder is a parameter, and the error message printed before a re-raise is not modelled.
- `scraper.py`, `database.py`, `test_db_connection.py` and `app.py`: network I/O, persistence and UI glue. This includes how `app.py` resolves search ordinals to chunks and joins them.
- Python strings may hold lone surrogate code points. Dafny `char` values are Unicode scalar values, so such texts are outside the model.
- TextChunker.ChunkBounds: the bound "at most `chunk_size` characters" is stated only for `chunk_size >= 0`. With a negative `chunk_size`, Python's slice end counts from the end of the text, so a chunk can be up to `len(text) + chunk_size` long.
