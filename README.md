# ocr-embeds: the text chunker and the vector store, in Dafny

This project models the two parts of ocr-embeds that hold logic of their own
and proves properties of them.

- **The text chunker** (`chunk_text`, module `TextProcessor`). A cursor walks
  over the OCR text. Each pass proposes the window `[start, start + chunk_size)`.
  When the window ends inside the text, its end is pulled back to the last space
  in the window. The pass emits the window's slice stripped of surrounding
  whitespace when that is non-empty, then moves the cursor to `end - overlap`,
  or to `end` when the overlap is not positive. The cursor is a Python integer,
  and Python reads a negative slice or `rfind` bound as counted from the end;
  `Clamp` models that rule. The loop need not terminate, so `ChunkText` and the
  function `Chunks` that specifies it take an iteration budget `fuel`. `None`
  means the loop is still running after `fuel` passes.
  - The loop is specified generically: `Walk` runs any loop body `step`, and
    `Step` is the chunker's body.
  - The method keeps the source's form: a `while` loop that calls `Pass`, the
    body's statements.
- **The vector store** (class `VectorStore`, module `VectorDb`). The store keeps
  a FAISS flat index and a parallel list of metadata records. `add_item`
  appends a vector and stamps its record with the vector's position as `id`.
  `search` filters FAISS's raw `(D, I)` output and shapes each surviving entry
  into `{filename, preview, score}`.
  - The FAISS index is modelled by what it holds: its dimension and its vectors
    in insertion order, so `ntotal` is the number of vectors.
  - The raw search output is an input to `Search`.
  - The files behind `save_index` and `load_index` are values. Loading takes
    what each file holds, or None when the file does not exist. Saving returns
    what it hands to the writers.

What is proved, in short:
- Every chunk is non-empty, has no surrounding whitespace, and is a substring
  of the text.
- Chunks come out in the order the cursor visits the windows.
- On text without spaces and with `0 <= overlap < chunk_size`, the cursor moves
  by exactly `chunk_size - overlap` per pass and the loop ends after
  ceil(len / stride) passes. `"A" * 1200` with (500, 100) gives three chunks.
- The progress guard at text_processor.py:39-41 does not prevent infinite loops
  (see Findings). A corrected loop always ends, and it agrees with the original
  wherever the original makes progress.
- `add_item` keeps record `i`'s id equal to `i` and to its vector's position.
- From a fresh store, any run of `add_item` calls leaves one record per vector,
  with ids `0..n-1`.
- `search` returns the raw entries that pass the filter, in FAISS's order,
  shaped from the record each label names and scored with the paired distance.
  It returns at most `top_k` of them, and `[]` on an empty index.
- Loading the values `save_index` hands to its writers gives back the same state.

Where the system's design notes and the code disagree, the model follows the
code:
- The design notes say the guard at text_processor.py:39-41 forces forward
  progress and that chunking always terminates when `overlap < chunk_size`.
  The code does neither (see Findings).
- The design notes say a text shorter than `chunk_size` yields exactly one
  chunk. In the code the cursor moves on to `chunk_size - overlap` after the
  first window, and when that is still inside the text a second, contained
  chunk follows: `chunk_text("abcdefgh", 10, 3)` returns `["abcdefgh", "h"]`
  (`ShortTextExample`), and with the defaults any text of 401-500 characters
  without whitespace gives two chunks (`ShortTextNotOneChunk`).
- The design notes say `search` requires the query to have the store's
  dimension. In the code, FAISS's Python wrapper asserts that the query has the
  index's own dimension, which after a load can differ from `self.dimension`.
  The model returns that assertion as `Err(DimensionMismatch)`.
- The design notes mention a document-level aggregation step. No such code
  exists, so it is not modelled.

Files: `wrappers.dfy` (Option, Result), `text_processor.dfy`, `vector_db.dfy`.

## Model

| member | source | states |
|---|---|---|
| `TextProcessor.Clamp` | src/utils/text_processor.py:27-32 | Python's reading of a slice or `rfind` bound: a bound in `[0, n]` is kept, a larger one becomes `n`, and a negative one counts from the end, floored at 0 |
| `TextProcessor.Slice` | src/utils/text_processor.py:32 | `text[start:end]` is the clamped range, or empty when the clamped start lies past the clamped end |
| `TextProcessor.LastIndexOf` | src/utils/text_processor.py:27 | the result is -1 exactly when the range holds no such character; otherwise it is in the range, holds the character, and no later position in the range does |
| `TextProcessor.RFind` | src/utils/text_processor.py:27 | `text.rfind(' ', start, end)` over the clamped bounds: -1 exactly when there is no space there, else the position of the last one |
| `TextProcessor.StripSpec` | src/utils/text_processor.py:32 | `strip()` removes a whitespace prefix and a whitespace suffix and keeps the middle, which starts and ends with non-whitespace; the result is empty exactly when the input is all whitespace, and it is a substring of the input |
| `TextProcessor.WindowEndSpec` | src/utils/text_processor.py:22-29 | the window end is `start + chunk_size` unless that lies inside the text and the window holds a space; then it is the position of the window's last space |
| `TextProcessor.NextStart` | src/utils/text_processor.py:37-41 | the next cursor never exceeds `end`; it is `end - overlap` when the overlap is positive and `end` otherwise |
| `TextProcessor.ChunkAtSpec` | src/utils/text_processor.py:32-33 | a window's stripped slice has no surrounding whitespace, is a substring of the text, and is empty exactly when the window is all whitespace |
| `TextProcessor.EmittedAppend` | src/utils/text_processor.py:17-34 | chunks follow the cursor order: the chunks of two runs of cursors are those of the first followed by those of the second |
| `TextProcessor.EmittedFromCursors` | src/utils/text_processor.py:32-34 | every emitted chunk is non-empty and is the stripped window of one of the visited cursors |
| `TextProcessor.WalkEmitsAlongTrace` | src/utils/text_processor.py:21-34 | a finished loop has appended exactly the non-empty chunks of the cursors it visited, in visiting order |
| `TextProcessor.WalkChunksAreStepChunks` | src/utils/text_processor.py:32-34 | every chunk a finished loop appends is the non-empty chunk of some cursor |
| `TextProcessor.WalkFuelMonotone` | src/utils/text_processor.py:21 | a larger iteration budget does not change the result of a finished loop |
| `TextProcessor.WalkStallsAtFixedPoint` | src/utils/text_processor.py:21-41 | a cursor inside the text that a pass maps back to itself makes the loop run forever |
| `TextProcessor.WalkConstantStride` | src/utils/text_processor.py:21-41 | when every pass moves the cursor by the same positive stride, the loop visits `start, start + stride, ...` below the text length and ends within ceil(remaining / stride) passes |
| `TextProcessor.EmittedOnePerCursor` | src/utils/text_processor.py:33-34 | cursors whose windows all have non-empty chunks emit exactly one chunk each |
| `TextProcessor.ChunksFuelMonotone` | src/utils/text_processor.py:21-41 | the budget decides only whether `chunk_text` finishes, never what a finished run returns |
| `TextProcessor.ChunksWellFormed` | src/utils/text_processor.py:21-34 | a finished run returns the non-empty stripped windows of the visited cursors in visiting order; each chunk is non-empty, has no surrounding whitespace, and is a substring of the text |
| `TextProcessor.AppendEmit` | src/utils/text_processor.py:33-34 | appending a chunk only when it is non-empty is appending what the pass emits |
| `TextProcessor.Pass` | src/utils/text_processor.py:22-41 | one pass of the loop body computes the window's chunk, the window's end and the next cursor as `Step` specifies |
| `TextProcessor.ChunkText` | src/utils/text_processor.py:5-44 | `chunk_text` returns `[]` for empty text; it returns `Chunks(text, chunk_size, overlap, fuel)`, so every chunk it returns is non-empty, trimmed and a substring of the text |
| `TextProcessor.SpaceFreeStep` | src/utils/text_processor.py:22-41 | without spaces and with `0 <= overlap < chunk_size`, a window keeps its proposed end and the cursor advances by exactly `chunk_size - overlap` |
| `TextProcessor.SpaceFreeStride` | src/utils/text_processor.py:22-41 | without spaces and with `0 <= overlap < chunk_size`, every pass from a cursor inside the text moves it forward by `chunk_size - overlap` |
| `TextProcessor.SpaceFreeCursors` | src/utils/text_processor.py:21-41 | without spaces and with `0 <= overlap < chunk_size`, the loop visits the cursors `k * (chunk_size - overlap)` below the text length and ends after ceil(len / stride) passes |
| `TextProcessor.WhitespaceFreeChunkAt` | src/utils/text_processor.py:32-33 | without whitespace, the window at any cursor inside the text yields a non-empty chunk |
| `TextProcessor.WhitespaceFreeChunks` | src/utils/text_processor.py:21-44 | without whitespace and with `0 <= overlap < chunk_size`, `chunk_text` ends and returns ceil(len / (chunk_size - overlap)) chunks |
| `TextProcessor.ThreeChunksFor1200As` | tests/stress_test.py:42-47 | `chunk_text("A" * 1200, 500, 100)` visits the cursors 0, 400 and 800 and returns exactly three chunks |
| `TextProcessor.NeverFinishesWhenSpaceAtOverlap` | src/utils/text_processor.py:37-41 | when the first window's last space is at index `overlap`, the cursor returns to 0 and `chunk_text` never returns, whatever the budget |
| `TextProcessor.StallExample` | src/utils/text_processor.py:21-41 | `chunk_text("a bcd", 3, 1)` never returns |
| `TextProcessor.CursorGoesNegative` | src/utils/text_processor.py:37-41 | for "ab cdefg" with (4, 3) the cursor moves from 0 to -1, whose window `text[-1:3]` is empty |
| `TextProcessor.WalkCyclesBetweenTwo` | src/utils/text_processor.py:21-41 | two cursors inside the text that the loop body maps to each other make the loop run forever |
| `TextProcessor.NegativeCursorCycles` | src/utils/text_processor.py:22-41 | for "ab cdefg" with (4, 3) the window at -1 keeps its end 3, so the cursor goes back to 0; it cycles 0, -1, 0, ... and `chunk_text` never returns |
| `TextProcessor.DefaultsStall` | src/utils/text_processor.py:5-41 | with the default arguments (500, 100), a text longer than 500 characters with a space at index 100 and none at 101-499 makes `chunk_text` run forever |
| `TextProcessor.StripWhitespaceFree` | src/utils/text_processor.py:32 | `strip()` leaves a text without whitespace unchanged |
| `TextProcessor.ShortTextNotOneChunk` | src/utils/text_processor.py:21-41 | a text without whitespace, no longer than `chunk_size` but longer than `chunk_size - overlap`, gives at least two chunks, the first being the whole text |
| `TextProcessor.ShortTextSteps` | src/utils/text_processor.py:22-41 | for "abcdefgh" with (10, 3) the first pass emits the whole text and moves to 7; the second emits "h" and moves to 14 |
| `TextProcessor.ShortTextExample` | src/utils/text_processor.py:14-44 | `chunk_text("abcdefgh", 10, 3)` returns `["abcdefgh", "h"]` |
| `TextProcessor.FixedNext` | src/utils/text_processor.py:39-41 | the corrected guard always moves the cursor forward, and it leaves the original next cursor alone whenever that already moves forward |
| `TextProcessor.WalkFixed` | src/utils/text_processor.py:21-41 | the corrected loop ends, appends at most one chunk per remaining character, and every chunk it appends is the non-empty chunk of a cursor in the text |
| `TextProcessor.ChunkTextFixed` | src/utils/text_processor.py:21-44 | `chunk_text` with the corrected guard always returns, with at most one chunk per character, each non-empty, trimmed and a substring of the text |
| `TextProcessor.WalkAgreesWhenAdvancing` | src/utils/text_processor.py:21-41 | where every pass of the original loop moves the cursor forward, the original ends within the remaining length and returns what the corrected loop returns |
| `TextProcessor.SpaceFreeAgrees` | src/utils/text_processor.py:21-41 | on text without spaces and with `0 <= overlap < chunk_size`, the original `chunk_text` ends and agrees with the corrected one |
| `VectorDb.Created` | src/core/vector_db.py:22-26 | `create_index` leaves an empty index of the store's dimension and no records, so ids and positions agree trivially |
| `VectorDb.LoadSpec` | src/core/vector_db.py:73-81 | `load_index` takes both files as they are when both exist and otherwise creates a fresh index; either way the store has an index afterwards |
| `VectorDb.SaveLoadRoundTrip` | src/core/vector_db.py:65-81 | `save_index` writes nothing without an index; with one, loading what it wrote gives back the same index and records |
| `VectorDb.AddItemAppendsOne` | src/core/vector_db.py:29-40 | `add_item` creates an index first when there is none; then it either fails on a dimension mismatch and changes nothing more, or appends exactly one vector and one record stamped with id `ntotal - 1`, leaving earlier records unchanged |
| `VectorDb.AddItemKeepsIdsInSync` | src/core/vector_db.py:35-40 | `add_item` preserves "record `i` has id `i` and there is one record per vector" |
| `VectorDb.StampedAt` | src/core/vector_db.py:39-40 | stamping keeps each record's filename and text and gives the `k`-th record the id `n + k` |
| `VectorDb.AddAllAppendsAccepted` | src/core/vector_db.py:29-40 | from an in-sync store, a run of `add_item` calls stays in sync and appends exactly the accepted vectors and their records, in call order, with consecutive ids |
| `VectorDb.AddAllFromCreated` | src/core/vector_db.py:22-40 | from a fresh store, after any run of `add_item` calls, `len(metadata) == ntotal` and `metadata[i].id == i`; when every vector has the store's dimension, `ntotal` is the number of calls |
| `VectorDb.ReloadAfterMassIndexing` | tests/stress_test.py:74-87 | indexing many vectors of the store's dimension, saving and reloading gives an index with one vector per call |
| `VectorDb.Preview` | src/core/vector_db.py:59 | the preview is the text's first `min(200, len)` characters followed by "..." |
| `VectorDb.Survivors` | src/core/vector_db.py:54-55 | the positions that pass the filter (label not -1 and below the record count) are listed in increasing order, and every position that passes is listed |
| `VectorDb.HitsAreSurvivors` | src/core/vector_db.py:53-61 | the results are the surviving raw entries in FAISS's order; each takes the named record's filename and preview and the distance at the same position |
| `VectorDb.HitsBounded` | src/core/vector_db.py:53-61 | there are never more results than raw entries |
| `VectorDb.VectorStore.constructor` | src/core/vector_db.py:12-20 | a new store keeps its paths and dimension and is in the state `load_index` leaves |
| `VectorDb.VectorStore.CreateIndex` | src/core/vector_db.py:22-26 | the store holds an empty index of its dimension and no records |
| `VectorDb.VectorStore.AddItem` | src/core/vector_db.py:29-40 | the new state and the error are those `AddItemSpec` gives, and the id/position invariant is preserved |
| `VectorDb.VectorStore.Search` | src/core/vector_db.py:42-63 | `[]` when there is no index or it is empty; the FAISS errors for a wrong query dimension or a non-positive `top_k`; otherwise the filtered, shaped hits, never more than `top_k` |
| `VectorDb.VectorStore.SaveIndex` | src/core/vector_db.py:65-71 | writes the index and the records only when there is an index, and loading what it wrote restores the current state |
| `VectorDb.VectorStore.LoadIndex` | src/core/vector_db.py:73-81 | the state becomes the two files' contents when both exist, and a fresh index otherwise |
| `VectorDb.DefaultSearchBounded` | src/core/vector_db.py:42-61 | a search with the default `top_k` of 5 returns at most five results |
| `VectorDb.TwoItemSearch` | tests/stress_test.py:50-68 | from any in-sync store of dimension 384 holding `n` records (the test's store loads what an earlier test saved), the two added records get ids `n` and `n + 1` and the store stays in sync; when FAISS ranks them first and second, the results are "match.png" then "garbage.png", with previews "Match..." and "Garbage..." |
| `VectorDb.TwoItemsAdded` | tests/stress_test.py:61-62 | the two `add_item` calls append both vectors and both records, stamped `n` and `n + 1` |
| `VectorDb.TwoItemHits` | tests/stress_test.py:65 | raw labels `n, n + 1` naming the two records give the hits "match.png"/"Match..." then "garbage.png"/"Garbage..." with their distances |

## Left out

- OCR (src/core/ocr.py), the embedder (src/core/embedder.py), the CLI (main.py), src/config.py and verify_ocr.py are not part of this model. They are calls into OpenCV, Tesseract, sentence-transformers and Typer/Rich.
- FAISS's nearest-neighbour search and its float L2 distances are not modelled. The raw `(D, I)` row is an input to `Search`, and scores are opaque `real` values. The `float32` casts at vector_db.py:35 and 48 and the `float()` at line 60 are not modelled either.
- VectorDb.VectorStore.Search: requires FAISS's own guarantee about its output (`RawShape`): one distance per label, `top_k` of each, and no label below -1. Callers cannot break it.
- VectorDb.VectorStore.SaveIndex: `if self.index:` is read as "the index is not None", assuming a FAISS index object is always truthy.
- The file and JSON serialisation in `save_index` and `load_index` is I/O. Only the branch structure is modelled, with the files' contents as values. `load_index` does not check that the loaded record count matches `ntotal`, and the model does not claim that it does.
- VectorDb.SaveLoadRoundTrip: the round trip is over the values handed to the writers, assuming `faiss.write_index`/`read_index` and `json.dump`/`load` return what was written. Serialisation itself is not verified.
- Exceptions are modelled as values. FAISS's assertions (query or vector dimension, `top_k > 0`) come back as `FaissError` from `AddItem` and `Search` instead of being raised.
- Records have the fixed fields `id`, `filename` and `text`. A metadata file with missing keys (a `KeyError` in `search`) or extra keys is not modelled.
- `add_item` writes the `id` into the caller's own dict, so the caller sees the change. The model appends the stamped record by value, so that aliasing is not captured.
- `VectorStore` takes its dimension as a `nat`. A negative dimension, which FAISS would reject, is not modelled.
- The assertion at tests/stress_test.py:71 ("higher score first") contradicts L2 distances, where lower is better (vector_db.py:60). It is not stated as a property.
- TextProcessor.ChunkText: the loop runs under an iteration budget because the original need not terminate. `None` means "still running after `fuel` passes", so a non-terminating run is told apart only from runs that finish within the budget.
- TextProcessor.IsSpace: Python's `str.isspace` is modelled by CPython's fixed list of whitespace code points. Unicode database versions are not modelled.
- Logging calls are not modelled.
- Default arguments: every operation takes `chunk_size`, `overlap` and `top_k` explicitly. The defaults (500, 100 and 5) are the named constants `DefaultChunkSize`, `DefaultOverlap` and `DefaultTopK`, used by `DefaultsStall` and `DefaultSearchBounded`. No caller in the repository relies on them.

## Findings

| source | as written | input that shows it | evidently intended | confidence | as-written member | corrected member |
|---|---|---|---|---|---|---|
| src/utils/text_processor.py:37-41 | the guard resets the cursor only when `end - overlap >= end`, i.e. when `overlap <= 0`; after `end` is pulled back to a space, `end - overlap` can fall at or before the old cursor and the loop repeats the same window forever | `chunk_text("a bcd", chunk_size=3, overlap=1)`: the window `[0, 3)` ends at the space at 1 and the cursor returns to 0. With the defaults (500, 100), any text longer than 500 characters with a space at index 100 and none at 101-499 does the same | each pass moves the cursor forward, so the loop always ends (the comment at line 39 says the guard prevents infinite loops) | high (proved; not executed) | `TextProcessor.NeverFinishesWhenSpaceAtOverlap` | `TextProcessor.ChunkTextFixed` |
| src/utils/text_processor.py:37-41 | the cursor can become negative when the first window's last space lies before index `overlap`; Python then reads the next slice and `rfind` bounds as counted from the end of the text | `chunk_text("ab cdefg", chunk_size=4, overlap=3)`: the window ends at the space at 2 and the cursor becomes -1, whose window `text[-1:3]` is empty; that window keeps its end 3, so the cursor returns to 0 and the loop cycles 0, -1, 0, ... forever | the cursor never moves backward, and the loop ends | high (proved; not executed) | `TextProcessor.NegativeCursorCycles` | `TextProcessor.ChunkTextFixed` |
