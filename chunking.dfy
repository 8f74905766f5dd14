/**
 * chunk_text (backend/preprocess_and_train.py): the cleaned text is cut into
 * windows of `chunkSize` characters, each starting `chunkSize - overlap`
 * characters after the previous one, the last one ending at the end of the text.
 */
module Chunking {

  import opened TextClean

  /** The defaults of chunk_text, the values ingest_csv_to_docs uses. */
  const DefaultChunkSize: int := 400
  const DefaultOverlap: int := 50

  /**
   * The parameters for which chunk_text returns: the window is non-empty and
   * every step moves it forward. Otherwise `start` never advances.
   */
  predicate ValidParams(size: int, overlap: int) {
    0 < size && overlap < size
  }

  function Min(a: int, b: int): int {
    if a < b then a else b
  }

  /**
   * What the while loop of chunk_text appends once its cursor is at `start`:
   * nothing when the cursor is past the text; otherwise the slice
   * text[start:start + size], and then, unless that slice reached the end of
   * the text, what it appends from `start + size - overlap` on.
   */
  function ChunksFrom(text: string, start: nat, size: int, overlap: int): seq<string>
    requires ValidParams(size, overlap)
    decreases |text| - start
  {
    if start >= |text| then []
    else if start + size >= |text| then [text[start..]]
    else [text[start..start + size]] + ChunksFrom(text, start + size - overlap, size, overlap)
  }

  /** One turn of the loop: the slice at the cursor, then, unless it reached the end, the chunks from the next cursor. */
  lemma ChunksFromStep(text: string, start: nat, size: int, overlap: int)
    requires ValidParams(size, overlap) && start < |text|
    ensures ChunksFrom(text, start, size, overlap) == [text[start..Min(start + size, |text|)]] +
      (if start + size >= |text| then [] else ChunksFrom(text, start + size - overlap, size, overlap))
  {
    if start + size >= |text| {
      assert text[start..] == text[start..|text|];
    }
  }

  /** The list chunk_text returns for text that is already clean. */
  function Chunks(text: string, size: int, overlap: int): seq<string>
    requires ValidParams(size, overlap)
  {
    if |text| <= size then [text] else ChunksFrom(text, 0, size, overlap)
  }

  /** chunk_text(raw, chunkSize, overlap): clean the value, then cut it into windows. */
  method ChunkText(raw: PyValue, chunkSize: int := DefaultChunkSize, overlap: int := DefaultOverlap)
    returns (chunks: seq<string>)
    requires ValidParams(chunkSize, overlap)
    ensures chunks == Chunks(Clean(raw), chunkSize, overlap)
  {
    var text := Clean(raw);
    chunks := CutWindows(text, chunkSize, overlap);
  }

  /**
   * The body of chunk_text after its first line: the short-text return and
   * the start/end cursor loop.
   */
  method CutWindows(text: string, chunkSize: int, overlap: int) returns (chunks: seq<string>)
    requires ValidParams(chunkSize, overlap)
    ensures chunks == Chunks(text, chunkSize, overlap)
  {
    if |text| <= chunkSize {
      return [text];
    }
    chunks := [];
    var start := 0;
    while start < |text|
      invariant 0 <= start
      invariant chunks + ChunksFrom(text, start, chunkSize, overlap) == ChunksFrom(text, 0, chunkSize, overlap)
      decreases |text| - start
    {
      var end := start + chunkSize;
      var chunk := text[start..Min(end, |text|)];
      ChunksFromStep(text, start, chunkSize, overlap);
      if end >= |text| {
        chunks := chunks + [chunk];
        break;
      }
      assert chunks + ChunksFrom(text, start, chunkSize, overlap) ==
        (chunks + [chunk]) + ChunksFrom(text, end - overlap, chunkSize, overlap);
      chunks := chunks + [chunk];
      start := end - overlap;
    }
    assert start >= |text| ==> chunks + ChunksFrom(text, start, chunkSize, overlap) == chunks;
  }

  /** How far after the cursor chunk i begins: i steps of size - overlap. */
  function Offset(i: nat, size: int, overlap: int): nat
    requires ValidParams(size, overlap)
  {
    if i == 0 then 0 else Offset(i - 1, size, overlap) + (size - overlap)
  }

  /** The offset of chunk i is i * (size - overlap). */
  lemma {:induction false} OffsetIsProduct(i: nat, size: int, overlap: int)
    requires ValidParams(size, overlap)
    ensures Offset(i, size, overlap) == i * (size - overlap)
  {
    if i > 0 {
      OffsetIsProduct(i - 1, size, overlap);
    }
  }

  /**
   * Chunk i of the loop started at `start` begins Offset(i) characters
   * after it and is the Python slice text[begin:begin + size].
   * Every chunk but the last is a full window; with a non-negative overlap the
   * last one reaches the end of the text.
   */
  lemma {:induction false} ChunkFromAt(text: string, start: nat, size: int, overlap: int, i: nat)
    requires ValidParams(size, overlap)
    requires i < |ChunksFrom(text, start, size, overlap)|
    ensures start + Offset(i, size, overlap) < |text|
    ensures ChunksFrom(text, start, size, overlap)[i] ==
      text[start + Offset(i, size, overlap)..Min(start + Offset(i, size, overlap) + size, |text|)]
    ensures i < |ChunksFrom(text, start, size, overlap)| - 1 ==> start + Offset(i, size, overlap) + size < |text|
    ensures i == |ChunksFrom(text, start, size, overlap)| - 1 && 0 <= overlap ==>
      |text| <= start + Offset(i, size, overlap) + size
    decreases i
  {
    var step := size - overlap;
    var next := start + step;
    if start + size < |text| {
      assert ChunksFrom(text, start, size, overlap)[1..] == ChunksFrom(text, next, size, overlap);
      if i > 0 {
        ChunkFromAt(text, next, size, overlap, i - 1);
      } else if 0 <= overlap {
        assert next < |text|;
      }
    }
  }

  /** ChunkAt for a text that fits in one window: the one chunk is the text. */
  lemma ShortChunkAt(text: string, size: int, overlap: int, i: nat)
    requires ValidParams(size, overlap) && |text| <= size
    requires i < |Chunks(text, size, overlap)|
    ensures i == 0 && Offset(i, size, overlap) == 0 && Chunks(text, size, overlap)[i] == text
  {
  }

  /** ChunkAt for a text longer than one window: chunk i of the loop started at 0. */
  lemma LongChunkAt(text: string, size: int, overlap: int, i: nat)
    requires ValidParams(size, overlap) && |text| > size
    requires i < |Chunks(text, size, overlap)|
    ensures Offset(i, size, overlap) < |text|
    ensures Chunks(text, size, overlap)[i] == text[Offset(i, size, overlap)..Min(Offset(i, size, overlap) + size, |text|)]
  {
    var o := Offset(i, size, overlap);
    assert 0 + o == o;
    ChunkFromAt(text, 0, size, overlap, i);
    assert Chunks(text, size, overlap) == ChunksFrom(text, 0, size, overlap);
  }

  /** Where chunk i of a text longer than one window ends: inside the text unless it is the last one. */
  lemma LongChunkEnds(text: string, size: int, overlap: int, i: nat)
    requires ValidParams(size, overlap) && |text| > size
    requires i < |Chunks(text, size, overlap)|
    ensures i < |Chunks(text, size, overlap)| - 1 ==> Offset(i, size, overlap) + size < |text|
    ensures i == |Chunks(text, size, overlap)| - 1 && 0 <= overlap ==> |text| <= Offset(i, size, overlap) + size
  {
    ChunkFromAt(text, 0, size, overlap, i);
    assert Chunks(text, size, overlap) == ChunksFrom(text, 0, size, overlap);
  }

  /** ChunkFromAt for the list chunk_text returns, short text included. */
  lemma ChunkAt(text: string, size: int, overlap: int, i: nat)
    requires ValidParams(size, overlap)
    requires i < |Chunks(text, size, overlap)|
    ensures Offset(i, size, overlap) <= |text|
    ensures Chunks(text, size, overlap)[i] == text[Offset(i, size, overlap)..Min(Offset(i, size, overlap) + size, |text|)]
    ensures i < |Chunks(text, size, overlap)| - 1 ==> Offset(i, size, overlap) + size < |text|
    ensures i == |Chunks(text, size, overlap)| - 1 && 0 <= overlap ==> |text| <= Offset(i, size, overlap) + size
  {
    if |text| <= size {
      ShortChunkAt(text, size, overlap, i);
      assert text[0..|text|] == text;
    } else {
      LongChunkAt(text, size, overlap, i);
      LongChunkEnds(text, size, overlap, i);
    }
  }

  /** The window sizes: no chunk is longer than `size`, and all but the last are exactly `size`. */
  lemma ChunkLengths(text: string, size: int, overlap: int)
    requires ValidParams(size, overlap)
    ensures forall i :: 0 <= i < |Chunks(text, size, overlap)| ==> |Chunks(text, size, overlap)[i]| <= size
    ensures forall i :: 0 <= i < |Chunks(text, size, overlap)| - 1 ==> |Chunks(text, size, overlap)[i]| == size
  {
    forall i | 0 <= i < |Chunks(text, size, overlap)| ensures |Chunks(text, size, overlap)[i]| <= size {
      ChunkAt(text, size, overlap, i);
    }
    forall i | 0 <= i < |Chunks(text, size, overlap)| - 1 ensures |Chunks(text, size, overlap)[i]| == size {
      ChunkAt(text, size, overlap, i);
    }
  }

  /** Text no longer than one window is returned whole, as the only chunk; empty text gives [""]. */
  lemma ShortTextSingleChunk(text: string, size: int, overlap: int)
    requires ValidParams(size, overlap)
    ensures |text| <= size <==> Chunks(text, size, overlap) == [text]
  {
    if |text| > size {
      ChunkAt(text, size, overlap, 0);
    }
  }

  /** Chunk i starts i * (size - overlap) characters into the text. */
  lemma ChunkStart(text: string, size: int, overlap: int, i: nat)
    requires ValidParams(size, overlap)
    requires i < |Chunks(text, size, overlap)|
    ensures i * (size - overlap) <= |text|
    ensures Chunks(text, size, overlap)[i] == text[i * (size - overlap)..Min(i * (size - overlap) + size, |text|)]
  {
    ChunkAt(text, size, overlap, i);
    OffsetIsProduct(i, size, overlap);
  }

  /** Coverage: with a non-negative overlap the last chunk is the whole tail of the text from its offset. */
  lemma LastChunkReachesEnd(text: string, size: int, overlap: int)
    requires ValidParams(size, overlap) && 0 <= overlap
    ensures var n := |Chunks(text, size, overlap)|;
      n > 0 && (n - 1) * (size - overlap) <= |text| &&
      Chunks(text, size, overlap)[n - 1] == text[(n - 1) * (size - overlap)..]
  {
    if |text| > size {
      ChunkFromAt(text, 0, size, overlap, 0);
    }
    ChunkAt(text, size, overlap, |Chunks(text, size, overlap)| - 1);
    OffsetIsProduct(|Chunks(text, size, overlap)| - 1, size, overlap);
  }

  /** Two neighbouring chunks share exactly `overlap` characters: the tail of one is the head of the next. */
  lemma ConsecutiveChunksOverlap(text: string, size: int, overlap: int, i: nat)
    requires ValidParams(size, overlap) && 0 <= overlap
    requires i + 1 < |Chunks(text, size, overlap)|
    ensures var cs := Chunks(text, size, overlap);
      |cs[i]| == size && |cs[i + 1]| > overlap && cs[i][size - overlap..] == cs[i + 1][..overlap]
  {
    var cs := Chunks(text, size, overlap);
    var o, step := Offset(i, size, overlap), size - overlap;
    ChunkAt(text, size, overlap, i);
    assert cs[i] == text[o..o + size];
    ChunkAt(text, size, overlap, i + 1);
    var next, e := o + step, Min(o + step + size, |text|);
    assert Offset(i + 1, size, overlap) == next;
    assert cs[i + 1] == text[next..e] && next + overlap <= e;
    assert cs[i][step..] == text[next..o + size];
    assert cs[i + 1][..overlap] == text[next..o + size];
  }

  /** `c[overlap:]` in Python: the chunk without its first `overlap` characters. */
  function DropPrefix(c: string, overlap: nat): string {
    if overlap <= |c| then c[overlap..] else []
  }

  /** The later chunks with their overlapping heads removed, concatenated. */
  function Tails(cs: seq<string>, overlap: nat): string {
    if cs == [] then [] else DropPrefix(cs[0], overlap) + Tails(cs[1..], overlap)
  }

  /** The text rebuilt from its chunks: the first chunk, then every later one without its first `overlap` characters. */
  function Reassemble(cs: seq<string>, overlap: nat): string
    requires cs != []
  {
    cs[0] + Tails(cs[1..], overlap)
  }

  /** Round trip: the chunks from `start` on rebuild the text from `start` on. */
  lemma {:induction false} ChunksFromReassemble(text: string, start: nat, size: int, overlap: int)
    requires ValidParams(size, overlap) && 0 <= overlap && start < |text|
    ensures ChunksFrom(text, start, size, overlap) != []
    ensures Reassemble(ChunksFrom(text, start, size, overlap), overlap) == text[start..]
    decreases |text| - start
  {
    if start + size < |text| {
      ChunksFromReassemble(text, start + size - overlap, size, overlap);
      ReassembleStep(text, start, size, overlap);
    } else {
      ReassembleLast(text, start, size, overlap);
    }
  }

  /** The last window from `start` is the whole rest of the text. */
  lemma ReassembleLast(text: string, start: nat, size: int, overlap: int)
    requires ValidParams(size, overlap) && 0 <= overlap && start < |text| <= start + size
    ensures ChunksFrom(text, start, size, overlap) == [text[start..]]
  {
  }

  /** One step of the round trip: the window at `start`, then the text the later chunks rebuild without their shared head. */
  lemma ReassembleStep(text: string, start: nat, size: int, overlap: int)
    requires ValidParams(size, overlap) && 0 <= overlap && start + size < |text|
    requires ChunksFrom(text, start + size - overlap, size, overlap) != []
    requires Reassemble(ChunksFrom(text, start + size - overlap, size, overlap), overlap) == text[start + size - overlap..]
    ensures ChunksFrom(text, start, size, overlap) != []
    ensures Reassemble(ChunksFrom(text, start, size, overlap), overlap) == text[start..]
  {
    var next := start + size - overlap;
    var rs := ChunksFrom(text, next, size, overlap);
    var cs := ChunksFrom(text, start, size, overlap);
    assert cs == [text[start..start + size]] + rs;
    assert cs[1..] == rs;
    ChunksFromStep(text, next, size, overlap);
    assert overlap <= |rs[0]|;
    TailsOfReassemble(rs, overlap);
    assert Tails(rs, overlap) == text[start + size..];
    assert text[start..] == text[start..start + size] + text[start + size..];
  }

  /** When the first chunk is at least `overlap` long, the tails are the reassembled text without its first `overlap` characters. */
  lemma TailsOfReassemble(cs: seq<string>, overlap: nat)
    requires cs != [] && overlap <= |cs[0]|
    ensures Tails(cs, overlap) == Reassemble(cs, overlap)[overlap..]
  {
    assert (cs[0] + Tails(cs[1..], overlap))[overlap..] == cs[0][overlap..] + Tails(cs[1..], overlap);
  }

  /** Round trip: the chunks rebuild the text they were cut from. */
  lemma ChunksReassemble(text: string, size: int, overlap: int)
    requires ValidParams(size, overlap) && 0 <= overlap
    ensures Chunks(text, size, overlap) != []
    ensures Reassemble(Chunks(text, size, overlap), overlap) == text
  {
    if |text| > size {
      ChunksFromReassemble(text, 0, size, overlap);
      assert text[0..] == text;
    }
  }
}
