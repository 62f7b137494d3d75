# Ingestion and context assembly of the NeuroSpark RAG chatbot, in Dafny

This project models the retrieval-augmented chatbot's pipeline in
`utils/functions.py`. The chatbot answers questions about one PDF. Five parts
are modelled:

- **Loading the PDF** (`load_pdf_text`): the text of every page, joined with a
  newline. A missing file is an error.
- **Chunking** (`split_text`): a window of `chunk_size` characters slides over
  the text and advances `chunk_size - overlap` characters at a time. Each
  window is stripped of surrounding whitespace, and empty results are dropped.
  Defaults are 800 and 200.
- **Document ids** (`f"doc-{i}"`).
- **Build or load** (`get_or_create_collection`):
  - If the vector-store collection is empty, it is filled with one
    (id, embedding, chunk) record per chunk.
  - Otherwise it is used as it is, and neither the PDF nor the embedding
    service is consulted.
- **The retrieval context** (`retrieve_context`): the retrieved documents,
  joined with `"\n\n---\n\n"`.

Modules:

- `PyStr` (`pystr.dfy`): the Python string operations these functions rely
  on.
  - `str.isspace` uses Python's exact whitespace set.
  - `str.strip()`.
  - Slicing follows Python: negative bounds count from the end, and both
    bounds are clamped to the length.
  - `sep.join`.
  - The decimal rendering of a non-negative integer.
- `Chunking` (`chunking.dfy`): `split_text`. It is a loop method proved
  against a specification function. The shape, origin, exact windows and
  coverage of the chunks are stated as lemmas.
- `Pdf` (`pdf.dfy`): `load_pdf_text`, over a model of the PDF as either
  missing or a list of pages. Each page holds the text the reader extracted,
  or `None`.
- `Store` (`store.dfy`): the ids, and the collection as a class whose record
  list `add` appends to. It also holds the build-or-load step. That step takes
  the PDF and the embedding service as parameters; the embedding service is a
  function from the list of chunks to a list of vectors, or `None` when the
  call fails.
- `Retrieval` (`retrieval.dfy`): the context string built from the query's
  `documents` field.
- `Results` (`results.dfy`): `Option`, `Result` and the errors.

Assumptions the model makes, and how the code behaves under them:

- **Preconditions of `split_text`.** One would expect a chunker to ask for
  `chunk_size > 0` and `0 <= overlap < chunk_size`, but the code checks
  neither. The only thing it needs is a positive step, without which its loop
  never ends on a non-empty text. `Chunking.SplitText` therefore requires only
  `chunkSize - overlap > 0`. Negative bounds behave as Python slicing makes
  them behave. The lemmas that need more say so in their own `requires`.
- **The 1000-character example.** One would expect a 1000-character text to
  give two chunks with the defaults. The code takes exactly two windows, at
  offsets 0 and 600. A window that is all whitespace is dropped, so "at most
  two chunks" is what holds.
- **The `add` contract.** The store's `add` is not part of the repository.
  The model assumes this contract for it:
  - all three lists have the same length;
  - no id repeats, within the batch or against the stored records.
  Otherwise the whole batch is refused.
- **The embedding service** is a pure function from the list of chunks to a
  list of vectors, or `None` when the call fails. A failed call is reported
  as `EmbeddingFailed`, distinct from the `FileNotFound` of a missing PDF.
  Two runs given the same PDF value and the same function see the same text
  and the same vectors; `Store.BuildTwice` relies on this.

## Model

| member | source | states |
|---|---|---|
| Chunking.SplitText | utils/functions.py:59-73 | The loop returns exactly `Chunks(text, chunkSize, overlap)`, which is all stripped windows with the empty ones removed. It needs only a positive step, and an empty text gives no chunks. |
| Chunking.CollectIsStripEach | utils/functions.py:63-70 | The list the loop builds is its earlier contents followed by every window, stripped, in window order. |
| Chunking.ChunksAreStrippedWindows | utils/functions.py:59-73 | The result of `split_text` is the non-empty entries of the stripped windows, in order. |
| Chunking.NonEmptyMembers | utils/functions.py:73 | The comprehension keeps a string exactly when it was in the list and is non-empty. |
| Chunking.NonEmptyAppend | utils/functions.py:73 | The comprehension keeps the order: filtering a concatenation concatenates the filtered parts. |
| Chunking.StripEachAt | utils/functions.py:69 | Entry `i` of the stripped list is window `i`, stripped. |
| Chunking.WindowsFromAt | utils/functions.py:66-70 | Window `i` is the slice `text[a:a + chunkSize]`, where `a` is `start + i * step`. |
| Chunking.WindowsFromInside | utils/functions.py:66-70 | Every window starts strictly inside the text. |
| Chunking.WindowsFromEnd | utils/functions.py:66-70 | The loop stops only once the next start offset has reached or passed the end of the text. |
| Chunking.WindowAt | utils/functions.py:67-68 | With a positive chunk size, window `i` starts at `i * step` inside the text. It is `text[i * step .. min(i * step + chunkSize, len(text))]`. |
| Chunking.WindowsExact | utils/functions.py:66-70 | All windows at once: there are enough of them to reach the end of the text, and each is the clamped slice at `i * step`. |
| Chunking.ChunkShape | utils/functions.py:69-73 | Every chunk is non-empty and neither starts nor ends with a whitespace character. |
| Chunking.ChunkOrigin | utils/functions.py:67-69 | With a positive chunk size, every chunk is at most `chunkSize` long and is a contiguous piece of the text. |
| Chunking.Coverage | utils/functions.py:66-70 | With `0 <= overlap < chunkSize`, every character of the text is inside some unstripped window, at the offset that window's start implies. Each window reaches at least to the start of the next one. |
| Chunking.DefaultsOnThousandCharacters | utils/functions.py:59-73 | With the defaults, a 1000-character text is cut into exactly the windows `text[0:800]` and `text[600:1000]`, so it yields at most two chunks. |
| PyStr.StripMeaning | utils/functions.py:69 | `strip()` keeps a range of its argument. Everything before and after that range is whitespace, and a non-empty kept part has non-whitespace ends. |
| PyStr.StripShape | utils/functions.py:69 | The stripped text is no longer than the original and is not padded with whitespace. It is empty exactly when the original is all whitespace. |
| PyStr.StripInfix | utils/functions.py:69 | The stripped text is a contiguous piece of the original. |
| PyStr.StripCharacterised | utils/functions.py:69 | Any range satisfying the reference meaning of `strip()` keeps exactly what `Strip` returns. |
| PyStr.StripIdempotent | utils/functions.py:69 | Stripping twice is the same as stripping once. |
| PyStr.SliceClamped | utils/functions.py:68 | For bounds `0 <= a <= b`, Python's `s[a:b]` is the range from `min(a, len)` to `min(b, len)`. |
| PyStr.JoinLength | utils/functions.py:136 | Joining `n > 0` parts gives their total length plus `n - 1` separators. |
| PyStr.JoinLayout | utils/functions.py:136 | The joined text is the parts in order, each at its offset. A separator sits right before every part but the first, and nothing follows the last part. |
| PyStr.DecimalRoundTrip | utils/functions.py:104 | Reading back the decimal digits of `n` gives `n`. |
| PyStr.DecimalStringInjective | utils/functions.py:104 | Different numbers have different decimal renderings. |
| Pdf.LoadPdfText | utils/functions.py:43-56 | A missing file fails with `FileNotFound`. Otherwise the result is the pages' texts joined with a newline, and a page without text counts as `""`. |
| Pdf.PdfTextLayout | utils/functions.py:51-55 | Each page's text appears in page order. Exactly one newline separates consecutive pages, and there is nothing else. |
| Pdf.PdfTextEdges | utils/functions.py:45-55 | Loading fails exactly when the file is missing, and a PDF without pages gives the empty text. |
| Store.DocIdRoundTrip | utils/functions.py:104 | The id of index `i` is `doc-` followed by decimal digits from which `i` is read back. |
| Store.DocIdsDistinct | utils/functions.py:104 | The ids `doc-0 .. doc-(n-1)` are pairwise distinct. |
| Store.AddKeepsIdsUnique | utils/functions.py:106-110 | A batch the store accepts keeps every stored id unique. |
| Store.PopulateFails | utils/functions.py:92-110 | Filling an empty collection fails exactly in three cases, each with its own error: `FileNotFound` exactly when the PDF is missing, `EmbeddingFailed` exactly when the embedding call fails, and `LengthMismatch` exactly when that call returns a different number of vectors than there are chunks. The ids of a fill never clash. |
| Store.PopulateShape | utils/functions.py:94-110 | A successful fill stores one record per chunk of the PDF text, in chunk order. Record `i` is (`doc-i`, the `i`-th vector, chunk `i`). Every document is a non-empty, unpadded chunk, and no two records share an id. |
| Store.Collection.constructor | utils/functions.py:90 | A newly created collection is empty and valid. |
| Store.Collection.Add | utils/functions.py:106-110 | The reason for a refusal comes from the store contract. An accepted batch is appended as zipped records after the stored ones, and a refused batch changes nothing. The ids stay unique. |
| Store.Collection.BuildOrLoad | utils/functions.py:92-114 | A non-empty collection is left untouched and reported as loaded with its count. An empty one ends up holding exactly the fill's records, or is left empty with the fill's error. |
| Store.BuildTwice | utils/functions.py:92-114 | Two runs given the same PDF and the same embedding answers. A collection that already held records ends unchanged and both runs report it loaded with its count. Otherwise the first run stores exactly the fill's records; if it stored some, the second run keeps exactly those and reports them loaded. If the first run failed or stored nothing, the second builds again and ends the same way, with the collection empty. |
| Retrieval.ContextFewDocuments | utils/functions.py:135-136 | A missing or empty `documents` field, or no documents, gives the empty context. A single document is the context unchanged. |
| Retrieval.ContextLayout | utils/functions.py:135-136 | With `n > 0` documents the context holds them in rank order, with `---` framed by blank lines before every document but the first. Its length is the documents' total length plus `n - 1` separators. |

## Left out

- The OpenAI and Azure clients (`get_openai_clients`) and the environment variables they read are not modelled.
- The PDF reader is not modelled: the model starts from the extracted text of each page.
- The embedding service is a parameter of the build step, a pure function of the chunks. Its model name, batching and transport are not modelled, nor are answers that change between calls.
- The store's persistence on disk, its directory and the collection name are not modelled.
- The store's nearest-neighbour query with `k = 4` is not modelled. Neither is the embedding of the question. Retrieval starts from the `documents` field the query returns.
- The chat completion, the system prompt and the temperature (`build_system_prompt`, `ask_neo`) are not modelled.
- The progress messages are not modelled.
- `src/main.py` is not part of this model.
- Store.Collection.Add: only the length and id checks of the store contract are modelled. Other checks the store makes, such as embedding dimensions or an empty batch, are not. `BuildOrLoad` only ever adds to an empty collection.
- Chunking.ChunkOrigin: the bound `len(chunk) <= chunkSize` is stated only for a positive chunk size. With a negative chunk size, Python's negative slice bounds make a window longer than that.
- Concurrent builders are not modelled. The count check and the fill are one step here.
