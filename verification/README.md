# toTranslate: chunking and sequential translation, in Dafny

toTranslate is a small browser utility. It reads a file as plain text, cuts
the text into chunks of 1000 UTF-16 code units and sends each chunk to a translation
service. It appends one table row per chunk, holding the original and the
translation. This project models the two parts of that flow that carry logic:

- **Chunker** (`chunker.dfy`, module `Chunker`). `splitTextIntoChunks` walks
  a counter `i` from 0 in steps of `chunkSize` while `i < |text|`. At each
  step it pushes `text.slice(i, i + chunkSize)`. Text is a sequence of
  UTF-16 code units (`CodeUnit`, a 16-bit newtype), which is what JavaScript's
  `length` and `slice` count. `Slice` models JavaScript's clamping of both
  slice ends to the string length. `ChunksFrom` is the loop as a recursive
  function from a given counter value. `Split` is the whole chunker.
  `SplitTextIntoChunks` is the imperative loop, proved equal to `Split`.
  `IsChunking` is an independent description of a valid result: the pieces
  concatenate back to the text, none is empty or longer than the chunk size,
  and all but the last have exactly the chunk size. `SplitCharacterization`
  proves that `Split` gives the one and only chunking.
- **Pipeline** (`pipeline.dfy`, module `Pipeline`). `translateChunks`
  translates the chunks one at a time, in order, and appends a row to the
  table after each one. The translation service is an oracle parameter
  `translate: Text -> Text`. The table is an append-only `seq<Row>`.
  `TranslateChunks` also returns the list of texts sent to the service, in
  the order they were sent. `LoadText` is `loadEPUB` without the file read:
  chunk with size 1000, then translate.

A non-positive chunk size makes the source loop forever on any non-empty
text. The model therefore requires `chunkSize > 0`. The source has no such
check; it only ever passes 1000.

## Model

| member | source | states |
|---|---|---|
| Chunker.Slice | script.js:10 | the slice is `s[start..end]` when both ends are in range, is clamped to the string's end when `end` lies past it, and is empty when `end <= start` or when `start` lies at or past the end |
| Chunker.ChunksFrom | script.js:9-10 | every chunk pushed from counter `i` onward is non-empty and at most `chunkSize` long; all but the last are exactly `chunkSize` long; at least one chunk is pushed iff `i < |text|` |
| Chunker.Split | script.js:7-13 | the result is a chunking of the text (it concatenates back to the text, every piece has length 1..chunkSize, and all but the last have exactly chunkSize) with `ceil(|text| / chunkSize)` pieces |
| Chunker.SplitTextIntoChunks | script.js:7-13 | the imperative loop (counter stepping by `chunkSize`, one clamped slice pushed per step) returns exactly `Split(text, chunkSize)` |
| Chunker.ChunksFromFlatten | script.js:9-10 | the chunks pushed from counter `i` concatenate to the suffix `text[i..]` |
| Chunker.ChunksFromCount | script.js:9 | from counter `i`, the loop pushes `ceil((|text| - i) / chunkSize)` chunks |
| Chunker.ChunksFromAt | script.js:9-10 | chunk `k` pushed from counter `i` starts at offset `i + k*chunkSize`, which lies inside the text, and is the window up to `min(i + (k+1)*chunkSize, |text|)` |
| Chunker.ChunksFromLast | script.js:9-10 | the last chunk pushed from counter `i < |text|` has length `|text| - i - (n-1)*chunkSize` |
| Chunker.ChunksFromShift | script.js:9-10 | chunking the suffix `text[i..]` from counter `j` gives the same chunks as chunking `text` from counter `i + j` |
| Chunker.SplitRoundTrip | script.js:9-10 | concatenating the chunks in order gives back the text exactly, with no gap and no overlap |
| Chunker.SplitCharacterization | script.js:7-13 | a sequence of pieces is a chunking of the text iff it equals the chunker's output, so that output is the only valid chunking |
| Chunker.ChunkingIsUnique | script.js:7-13 | any chunking of the text equals the chunker's output |
| Chunker.SplitCount | script.js:9 | the number of chunks is `(|text| + chunkSize - 1) / chunkSize` |
| Chunker.SplitAt | script.js:9-10 | chunk `k` is the window `[k*chunkSize, min((k+1)*chunkSize, |text|))` of the text, and its start lies inside the text |
| Chunker.SplitLengths | script.js:9-10 | all chunks but the last have length `chunkSize`; the last has length between 1 and `chunkSize`, equal to `|text| - (n-1)*chunkSize` and to `|text| % chunkSize`, or `chunkSize` when that remainder is 0 |
| Chunker.SplitEmpty | script.js:9 | there are no chunks iff the text is empty |
| Chunker.SplitShort | script.js:9-10 | a text with `0 < |text| <= chunkSize` is a single chunk equal to the whole text |
| Chunker.HelloWorldIsOneChunk | script.js:3-13 | "Hello World" with the loader's chunk size of 1000 is one chunk, "Hello World" itself |
| Chunker.TwentyFiveHundredCharacters | script.js:3-13 | a text of 2500 code units with chunk size 1000 gives three chunks, `text[..1000]`, `text[1000..2000]` and `text[2000..]`, of lengths 1000, 1000 and 500 |
| Pipeline.TranslateAllRows | script.js:17-28 | the reference row list has one row per chunk; row `k` pairs chunk `k` with its translation; its original column is the chunk sequence |
| Pipeline.TranslateChunks | script.js:15-30 | exactly one row is appended per chunk; the rows present before the call are unchanged; new row `k` pairs `chunks[k]` with `translate(chunks[k])`, in input order; the texts sent to the service are exactly the chunks, in order |
| Pipeline.LoadText | script.js:1-5 | loading a text appends `ceil(|text| / 1000)` rows and leaves the earlier rows unchanged; the new rows' originals concatenate back to the text; each original has length 1..1000; each translated cell is the translation of its original; the service receives exactly the chunker's output, in order; new row `k`'s original is request `k`; the new rows are exactly `TranslateAll(Split(text, 1000), translate)` |

## Left out

- Reading the file (`file.text()`, script.js:2) is browser I/O. `LoadText` takes the text as a parameter.
- `translateText` (script.js:32-50) is an HTTP POST to a remote service. Its JSON body uses fixed fields: source "en", target "ru", format "text". The model leaves out the request, the JSON encoding and the response parsing. The service is the oracle parameter `translate`.
- Building the DOM row (`createElement`, `innerText`, `appendChild`, script.js:19-28) is modelled only by its effect: it appends a `Row` to the table sequence.
- The page-load and file-input event wiring (script.js:52-65) is UI plumbing.
- `async`/`await`: each translation is awaited before the next starts, so the pipeline is modelled as a plain sequential loop.
- A reply without a `translatedText` field (script.js:48-49) returns `undefined` without throwing, and the cell shows "undefined". HTTP error replies take the same path, because `fetch` resolves on them. The model covers this only in that `translate` may return the text "undefined".
- A network failure (`fetch` rejects) or a reply that is not JSON (`response.json()` rejects) aborts the remaining loop and keeps the rows appended so far. The oracle is total, so this path is not modelled.
- If the page has no `#translation-table` element, script.js:28 throws after the first translation request returns, and no row is appended. The model assumes the table exists.
- Translator: the service is a function, so the model assumes equal chunks get equal translations. A remote service does not promise that. `requests` is the pipeline's own record of the texts it sent; it is not observed at the service.
- A chunk size of 0 or below makes the source loop forever on a non-empty text. The model excludes it with `requires chunkSize > 0` and does not model that behaviour.
- JavaScript strings are UTF-16 and the model's text is a sequence of 16-bit code units, so a surrogate pair may be split across two chunks just as in the source. Decoding the file's bytes into code units happens in `file.text()` and is not part of this model.
