/**
 Fixed-size chunking of the loaded text. The loader cuts the whole file
 contents into consecutive, non-overlapping windows of `chunkSize` characters,
 starting at offset 0 and stepping by `chunkSize`; the last window may be
 shorter. Lengths and offsets count UTF-16 code units, as JavaScript strings do.
 */
module Chunker {

  /** One UTF-16 code unit; a surrogate half is a code unit of its own. */
  newtype CodeUnit = x: int | 0 <= x < 0x1_0000

  /** A JavaScript string: a sequence of UTF-16 code units. */
  type Text = seq<CodeUnit>

  /** The chunk size the loader passes to the chunker. */
  const LoaderChunkSize: nat := 1000

  function Min(a: int, b: int): int {
    if a <= b then a else b
  }

  /** `ceil(a / b)` for a positive divisor `b`. */
  function CeilDiv(a: nat, b: nat): nat
    requires b > 0
  {
    (a + b - 1) / b
  }

  /**
   JavaScript's `String.prototype.slice(start, end)` for non-negative indices:
   both ends are clamped to the length of the string, and the result is empty
   when the clamped end does not lie past the clamped start.
   */
  function Slice(s: Text, start: nat, end: nat): (r: Text)
    ensures start <= end <= |s| ==> r == s[start..end]
    ensures start <= |s| <= end ==> r == s[start..]
    ensures end <= start ==> r == []
    ensures |s| <= start ==> r == []
  {
    var lo := Min(start, |s|);
    var hi := Min(end, |s|);
    if hi <= lo then [] else s[lo..hi]
  }

  /** Concatenation of a sequence of texts, in order. */
  function Flatten(chunks: seq<Text>): Text {
    if |chunks| == 0 then [] else chunks[0] + Flatten(chunks[1..])
  }

  /**
   The chunks the loop of the chunker pushes once its counter has reached `i`:
   while `i < |text|` it pushes the clamped slice `[i, i + chunkSize)` and
   advances `i` by `chunkSize`.
   */
  function ChunksFrom(text: Text, chunkSize: nat, i: nat): (r: seq<Text>)
    requires chunkSize > 0
    ensures forall k :: 0 <= k < |r| ==> 0 < |r[k]| <= chunkSize
    ensures forall k :: 0 <= k < |r| - 1 ==> |r[k]| == chunkSize
    ensures |r| > 0 <==> i < |text|
    decreases |text| - i
  {
    if i < |text| then
      [Slice(text, i, i + chunkSize)] + ChunksFrom(text, chunkSize, i + chunkSize)
    else
      []
  }

  /**
   `chunks` is a chunking of `text` into pieces of `chunkSize`: the pieces
   concatenate back to the text, none is empty or longer than `chunkSize`, and
   all but the last are exactly `chunkSize` long.
   */
  predicate IsChunking(text: Text, chunkSize: nat, chunks: seq<Text>) {
    && Flatten(chunks) == text
    && (forall k :: 0 <= k < |chunks| ==> 0 < |chunks[k]| <= chunkSize)
    && (forall k :: 0 <= k < |chunks| - 1 ==> |chunks[k]| == chunkSize)
  }

  /**
   The chunker's result as a pure function: a chunking of the text into
   `ceil(|text| / chunkSize)` pieces. A non-positive chunk size would make the
   loop run forever on a non-empty text, so it is excluded.
   */
  function Split(text: Text, chunkSize: nat): (r: seq<Text>)
    requires chunkSize > 0
    ensures IsChunking(text, chunkSize, r)
    ensures |r| == CeilDiv(|text|, chunkSize)
  {
    ChunksFromFlatten(text, chunkSize, 0);
    ChunksFromCount(text, chunkSize, 0);
    ChunksFrom(text, chunkSize, 0)
  }

  /** The loop of the chunker, step by step. */
  method SplitTextIntoChunks(text: Text, chunkSize: nat) returns (chunks: seq<Text>)
    requires chunkSize > 0
    ensures chunks == Split(text, chunkSize)
  {
    chunks := [];
    var i: nat := 0;
    while i < |text|
      invariant chunks + ChunksFrom(text, chunkSize, i) == Split(text, chunkSize)
      decreases |text| - i
    {
      chunks := chunks + [Slice(text, i, i + chunkSize)];
      i := i + chunkSize;
    }
  }

  // ---------------------------------------------------------------------------
  // Lemmas about the loop from an arbitrary offset

  lemma {:induction false} ChunksFromFlatten(text: Text, chunkSize: nat, i: nat)
    requires chunkSize > 0
    requires i <= |text|
    ensures Flatten(ChunksFrom(text, chunkSize, i)) == text[i..]
    decreases |text| - i
  {
    if i < |text| {
      var rest := ChunksFrom(text, chunkSize, i + chunkSize);
      var r := ChunksFrom(text, chunkSize, i);
      assert r[1..] == rest;
      if i + chunkSize <= |text| {
        ChunksFromFlatten(text, chunkSize, i + chunkSize);
        assert text[i..] == text[i..i + chunkSize] + text[i + chunkSize..];
      } else {
        assert rest == [];
      }
    }
  }

  lemma {:induction false} ChunksFromCount(text: Text, chunkSize: nat, i: nat)
    requires chunkSize > 0
    requires i <= |text|
    ensures |ChunksFrom(text, chunkSize, i)| == CeilDiv(|text| - i, chunkSize)
    decreases |text| - i
  {
    var n := |text| - i;
    if i + chunkSize <= |text| {
      ChunksFromCount(text, chunkSize, i + chunkSize);
      CeilDivStep(n, chunkSize);
    } else {
      CeilDivSmall(n, chunkSize);
    }
  }

  /** Quotient and remainder are determined by `x == q * b + m` with `0 <= m < b`. */
  lemma DivModUnique(x: int, b: int, q: int, m: int)
    requires 0 < b && 0 <= m < b && x == q * b + m
    ensures x / b == q && x % b == m
  {
    var q', m' := x / b, x % b;
    assert x == q' * b + m';
    if q' > q {
      MulAtLeast(q' - q, b);
    } else if q' < q {
      MulAtLeast(q - q', b);
    }
  }

  lemma MulAtLeast(d: int, b: int)
    requires 1 <= d && 0 < b
    ensures d * b >= b
  {
    assert d * b == (d - 1) * b + b;
  }

  lemma CeilDivStep(a: nat, b: nat)
    requires 0 < b <= a
    ensures CeilDiv(a, b) == 1 + CeilDiv(a - b, b)
  {
    var q, m := (a - 1) / b, (a - 1) % b;
    assert a - b + b - 1 == a - 1;
    assert a + b - 1 == (q + 1) * b + m;
    DivModUnique(a + b - 1, b, q + 1, m);
  }

  lemma CeilDivSmall(a: nat, b: nat)
    requires 0 < b && a < b
    ensures CeilDiv(a, b) == if a == 0 then 0 else 1
  {
    if a == 0 {
      DivModUnique(b - 1, b, 0, b - 1);
    } else {
      DivModUnique(a + b - 1, b, 1, a - 1);
    }
  }

  /** Chunk `k` from offset `i` is the window `[i + k * chunkSize, i + (k + 1) * chunkSize)`, clamped. */
  lemma {:induction false} ChunksFromAt(text: Text, chunkSize: nat, i: nat, k: nat)
    requires chunkSize > 0
    requires k < |ChunksFrom(text, chunkSize, i)|
    ensures i + k * chunkSize < |text|
    ensures ChunksFrom(text, chunkSize, i)[k]
         == text[i + k * chunkSize .. Min(i + (k + 1) * chunkSize, |text|)]
    decreases k
  {
    var r := ChunksFrom(text, chunkSize, i);
    if k == 0 {
      assert r[0] == Slice(text, i, i + chunkSize);
    } else {
      var rest := ChunksFrom(text, chunkSize, i + chunkSize);
      assert r[k] == rest[k - 1];
      ChunksFromAt(text, chunkSize, i + chunkSize, k - 1);
      MulSucc(k - 1, chunkSize);
      MulSucc(k, chunkSize);
    }
  }

  lemma MulSucc(a: nat, b: nat)
    ensures (a + 1) * b == a * b + b
  {
  }

  lemma {:induction false} ChunksFromLast(text: Text, chunkSize: nat, i: nat)
    requires chunkSize > 0
    requires i < |text|
    ensures var r := ChunksFrom(text, chunkSize, i);
      |r| > 0 && |r[|r| - 1]| == |text| - i - (|r| - 1) * chunkSize
    decreases |text| - i
  {
    var r := ChunksFrom(text, chunkSize, i);
    if i + chunkSize < |text| {
      var rest := ChunksFrom(text, chunkSize, i + chunkSize);
      ChunksFromLast(text, chunkSize, i + chunkSize);
      assert r[1..] == rest;
      assert r[|r| - 1] == rest[|rest| - 1];
      assert |rest| - 1 + 1 == |r| - 1;
      assert (|rest| - 1) * chunkSize + chunkSize == (|r| - 1) * chunkSize;
    } else {
      assert |r| == 1;
    }
  }

  /** Offsetting the text and offsetting the loop counter give the same chunks. */
  lemma {:induction false} ChunksFromShift(text: Text, chunkSize: nat, i: nat, j: nat)
    requires chunkSize > 0
    requires i <= |text|
    ensures ChunksFrom(text[i..], chunkSize, j) == ChunksFrom(text, chunkSize, i + j)
    decreases |text| - i - j
  {
    if i + j < |text| {
      ChunksFromShift(text, chunkSize, i, j + chunkSize);
      assert Slice(text[i..], j, j + chunkSize) == Slice(text, i + j, i + j + chunkSize);
    }
  }

  // ---------------------------------------------------------------------------
  // Properties of the chunker

  /** Concatenating the chunks in order gives back the text: no gap and no overlap. */
  lemma SplitRoundTrip(text: Text, chunkSize: nat)
    requires chunkSize > 0
    ensures Flatten(Split(text, chunkSize)) == text
  {
  }

  /** The chunker's result is the one and only chunking of the text. */
  lemma {:induction false} SplitCharacterization(text: Text, chunkSize: nat, chunks: seq<Text>)
    requires chunkSize > 0
    ensures IsChunking(text, chunkSize, chunks) <==> chunks == Split(text, chunkSize)
  {
    if IsChunking(text, chunkSize, chunks) {
      ChunkingIsUnique(text, chunkSize, chunks);
    }
  }

  lemma {:induction false} ChunkingIsUnique(text: Text, chunkSize: nat, chunks: seq<Text>)
    requires chunkSize > 0
    requires IsChunking(text, chunkSize, chunks)
    ensures chunks == Split(text, chunkSize)
    decreases |chunks|
  {
    if |chunks| == 0 {
      assert text == [];
    } else {
      var c := chunks[0];
      var rest := chunks[1..];
      assert text == c + Flatten(rest);
      var tail := text[|c|..];
      assert tail == Flatten(rest);
      forall k | 0 <= k < |rest|
        ensures 0 < |rest[k]| <= chunkSize
        ensures k < |rest| - 1 ==> |rest[k]| == chunkSize
      {
        assert rest[k] == chunks[k + 1];
      }
      assert IsChunking(tail, chunkSize, rest);
      ChunkingIsUnique(tail, chunkSize, rest);
      if |rest| == 0 {
        assert text == c;
        assert ChunksFrom(text, chunkSize, chunkSize) == [];
      } else {
        assert |c| == chunkSize;
        assert c == text[..chunkSize];
        ChunksFromShift(text, chunkSize, chunkSize, 0);
      }
    }
  }

  /** There are `ceil(|text| / chunkSize)` chunks. */
  lemma SplitCount(text: Text, chunkSize: nat)
    requires chunkSize > 0
    ensures |Split(text, chunkSize)| == (|text| + chunkSize - 1) / chunkSize
  {
  }

  /** Chunk `k` is the window `[k * chunkSize, (k + 1) * chunkSize)` of the text, clamped to its end. */
  lemma SplitAt(text: Text, chunkSize: nat, k: nat)
    requires chunkSize > 0
    requires k < |Split(text, chunkSize)|
    ensures k * chunkSize < |text|
    ensures Split(text, chunkSize)[k] == text[k * chunkSize .. Min((k + 1) * chunkSize, |text|)]
  {
    ChunksFromAt(text, chunkSize, 0, k);
  }

  /**
   Every chunk but the last is `chunkSize` long; the last is between 1 and
   `chunkSize` long, namely `|text| - (n - 1) * chunkSize`, which is
   `|text| % chunkSize`, or `chunkSize` when that remainder is 0.
   */
  lemma SplitLengths(text: Text, chunkSize: nat)
    requires chunkSize > 0
    ensures var r := Split(text, chunkSize);
      && (forall k :: 0 <= k < |r| - 1 ==> |r[k]| == chunkSize)
      && (|r| > 0 ==>
            && 1 <= |r[|r| - 1]| <= chunkSize
            && |r[|r| - 1]| == |text| - (|r| - 1) * chunkSize
            && |r[|r| - 1]| == (if |text| % chunkSize == 0 then chunkSize else |text| % chunkSize))
  {
    var r := Split(text, chunkSize);
    if |text| > 0 {
      ChunksFromLast(text, chunkSize, 0);
      var last := |r[|r| - 1]|;
      if last == chunkSize {
        assert |text| == |r| * chunkSize + 0 by {
          assert (|r| - 1) * chunkSize + chunkSize == |r| * chunkSize;
        }
        DivModUnique(|text|, chunkSize, |r|, 0);
      } else {
        DivModUnique(|text|, chunkSize, |r| - 1, last);
      }
    }
  }

  /** The empty text has no chunks, and only the empty text has none. */
  lemma SplitEmpty(text: Text, chunkSize: nat)
    requires chunkSize > 0
    ensures Split(text, chunkSize) == [] <==> text == []
  {
  }

  /** A non-empty text no longer than the chunk size is a single chunk: itself. */
  lemma SplitShort(text: Text, chunkSize: nat)
    requires chunkSize > 0
    requires 0 < |text| <= chunkSize
    ensures Split(text, chunkSize) == [text]
  {
    SplitCharacterization(text, chunkSize, [text]);
    assert Flatten([text]) == text + Flatten([]);
  }

  /** "Hello World", as UTF-16 code units. */
  const HelloWorld: Text := [0x48, 0x65, 0x6C, 0x6C, 0x6F, 0x20, 0x57, 0x6F, 0x72, 0x6C, 0x64]

  /** "Hello World" with the loader's chunk size is one chunk. */
  lemma HelloWorldIsOneChunk()
    ensures Split(HelloWorld, LoaderChunkSize) == [HelloWorld]
  {
    SplitShort(HelloWorld, LoaderChunkSize);
  }

  /** A text of 2500 code units with the loader's chunk size gives chunks of 1000, 1000 and 500. */
  lemma TwentyFiveHundredCharacters(text: Text)
    requires |text| == 2500
    ensures var r := Split(text, LoaderChunkSize);
      |r| == 3 && |r[0]| == 1000 && |r[1]| == 1000 && |r[2]| == 500
      && r == [text[..1000], text[1000..2000], text[2000..]]
  {
    var r := Split(text, LoaderChunkSize);
    SplitAt(text, LoaderChunkSize, 0);
    SplitAt(text, LoaderChunkSize, 1);
    SplitAt(text, LoaderChunkSize, 2);
    assert r[0] == text[..1000];
    assert r[1] == text[1000..2000];
    assert r[2] == text[2000..];
  }
}
