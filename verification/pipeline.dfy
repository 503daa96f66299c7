/**
 The translation pipeline: each chunk, in order, is sent to the translation
 service, and one (original, translated) row is appended to the output table
 as soon as its translation arrives. The service is an oracle: a function from
 a chunk to its translation. The table is an append-only sequence of rows.
 */
module Pipeline {
  import opened Chunker

  /** One row of the output table: the original chunk and its translation. */
  datatype Row = Row(original: Text, translated: Text)

  /**
   The translation service, seen as a function from a text to its translation.
   A reply without a translation is the text "undefined", which is what the
   table cell then shows.
   */
  type Translator = Text -> Text

  /** The rows the pipeline appends for `chunks`, one per chunk, in order. */
  function TranslateAll(chunks: seq<Text>, translate: Translator): seq<Row> {
    if |chunks| == 0 then []
    else [Row(chunks[0], translate(chunks[0]))] + TranslateAll(chunks[1..], translate)
  }

  /** The original-text column of a table. */
  function Originals(rows: seq<Row>): seq<Text> {
    seq(|rows|, k requires 0 <= k < |rows| => rows[k].original)
  }

  /**
   Row `k` of `TranslateAll` pairs chunk `k` with its translation, there is
   one row per chunk, and the original column is the chunk sequence itself.
   */
  lemma {:induction false} TranslateAllRows(chunks: seq<Text>, translate: Translator)
    ensures |TranslateAll(chunks, translate)| == |chunks|
    ensures forall k :: 0 <= k < |chunks| ==>
              TranslateAll(chunks, translate)[k] == Row(chunks[k], translate(chunks[k]))
    ensures Originals(TranslateAll(chunks, translate)) == chunks
    decreases |chunks|
  {
    if |chunks| > 0 {
      TranslateAllRows(chunks[1..], translate);
      var rows := TranslateAll(chunks, translate);
      assert rows[1..] == TranslateAll(chunks[1..], translate);
      forall k | 0 <= k < |chunks|
        ensures rows[k] == Row(chunks[k], translate(chunks[k]))
      {
        if k > 0 {
          assert rows[k] == rows[1..][k - 1];
        }
      }
    }
  }

  /**
   The loop over the chunks. `table` is the table before the call; the result
   is the table after it, and `requests` lists the texts sent to the
   translation service, in the order they were sent.
   */
  method TranslateChunks(table: seq<Row>, chunks: seq<Text>, translate: Translator)
    returns (table': seq<Row>, requests: seq<Text>)
    ensures requests == chunks
    ensures |table'| == |table| + |chunks|
    ensures table'[..|table|] == table
    ensures forall k :: 0 <= k < |chunks| ==>
              table'[|table| + k] == Row(chunks[k], translate(chunks[k]))
    ensures table' == table + TranslateAll(chunks, translate)
  {
    table' := table;
    requests := [];
    var j := 0;
    while j < |chunks|
      invariant 0 <= j <= |chunks|
      invariant |table'| == |table| + j
      invariant table'[..|table|] == table
      invariant forall k :: 0 <= k < j ==>
                  table'[|table| + k] == Row(chunks[k], translate(chunks[k]))
      invariant requests == chunks[..j]
    {
      var chunk := chunks[j];
      var translatedText := translate(chunk);
      requests := requests + [chunk];
      table' := table' + [Row(chunk, translatedText)];
      j := j + 1;
    }
    assert chunks[..j] == chunks;
    TranslateAllRows(chunks, translate);
    assert table'[|table|..] == TranslateAll(chunks, translate);
    assert table' == table'[..|table|] + table'[|table|..];
  }

  /**
   The loader without the file read: chunk the text with the loader's chunk
   size, then run the pipeline. The new rows' original column concatenates back
   to the text, there are `ceil(|text| / 1000)` of them, row `k` pairs chunk
   `k` of the text with its translation and with request `k`, and the rows
   already there are untouched.
   */
  method LoadText(table: seq<Row>, text: Text, translate: Translator)
    returns (table': seq<Row>, requests: seq<Text>)
    ensures |table'| == |table| + CeilDiv(|text|, LoaderChunkSize)
    ensures table'[..|table|] == table
    ensures Flatten(Originals(table'[|table|..])) == text
    ensures forall k :: |table| <= k < |table'| ==>
              && 0 < |table'[k].original| <= LoaderChunkSize
              && table'[k].translated == translate(table'[k].original)
    ensures requests == Split(text, LoaderChunkSize)
    ensures forall k :: 0 <= k < |requests| ==> table'[|table| + k].original == requests[k]
    ensures table' == table + TranslateAll(Split(text, LoaderChunkSize), translate)
  {
    var chunks := SplitTextIntoChunks(text, LoaderChunkSize);
    table', requests := TranslateChunks(table, chunks, translate);
    assert table'[|table|..] == TranslateAll(chunks, translate);
    TranslateAllRows(chunks, translate);
    forall k | |table| <= k < |table'|
      ensures 0 < |table'[k].original| <= LoaderChunkSize
      ensures table'[k].translated == translate(table'[k].original)
    {
      assert table'[k] == Row(chunks[k - |table|], translate(chunks[k - |table|]));
    }
  }
}
