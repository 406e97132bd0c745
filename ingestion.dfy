/** Ingestion: cutting document text into overlapping character windows, turning the
    rows of a CSV file into documents, and flattening documents into the two parallel
    lists (chunk texts and chunk metadata) that the store keeps. */
module Ingestion {
  import opened Wrappers
  import opened Text

  /** The defaults of `chunk_text`, which `ingest_data` relies on. */
  const DefaultMaxChars: int := 800
  const DefaultOverlap: int := 100

  /** One extracted document: its text, the file name it came from and, for a CSV
      data row, the 1-based row number. */
  datatype Doc = Doc(text: string, source: string, row: Option<nat>)

  /** The metadata object stored beside each chunk. `source` is optional because a
      stored object may lack the key (retrieval then shows "doc"); ingestion always sets it. */
  datatype Meta = Meta(source: Option<string>, chunkIndex: nat, row: Option<nat>)

  // ===========================================================================
  // chunk_text
  // ===========================================================================

  /** The window parameters for which `chunk_text` terminates with non-negative offsets. */
  predicate ValidWindow(maxChars: int, overlap: int) {
    0 <= maxChars && overlap < maxChars
  }

  /** Offset at which window `i` starts: each window starts `maxChars - overlap` after the previous one. */
  function ChunkStart(i: nat, maxChars: int, overlap: int): int {
    i * (maxChars - overlap)
  }

  /** The loop of `chunk_text` from offset `start` on: take the window, stop once it
      reaches the end of the text, otherwise move back `overlap` characters from its end. */
  function ChunksFrom(text: string, start: nat, maxChars: int, overlap: int): seq<string>
    requires ValidWindow(maxChars, overlap)
    decreases |text| - start
  {
    if start >= |text| then []
    else if start + maxChars >= |text| then [text[start..]]
    else [text[start..start + maxChars]] + ChunksFrom(text, start + maxChars - overlap, maxChars, overlap)
  }

  /** `chunk_text(text, maxChars, overlap)`: a text that fits is its own single chunk,
      whatever the overlap; only a longer text needs a window that advances. */
  function Chunks(text: string, maxChars: int, overlap: int): seq<string>
    requires |text| <= maxChars || ValidWindow(maxChars, overlap)
  {
    if |text| <= maxChars then [text] else ChunksFrom(text, 0, maxChars, overlap)
  }

  /** The loop of `chunk_text`, appending each window to `chunks`. A text that fits is
      returned before the loop, so `overlap` matters only for a longer text. */
  method ChunkText(text: string, maxChars: int, overlap: int) returns (chunks: seq<string>)
    requires |text| <= maxChars || ValidWindow(maxChars, overlap)
    ensures chunks == Chunks(text, maxChars, overlap)
    ensures |text| <= maxChars ==> chunks == [text]
  {
    if |text| <= maxChars {
      return [text];
    }
    chunks := [];
    var start: int := 0;
    ghost var passes: nat := 0;
    while start < |text|
      invariant 0 <= start && start == LoopStart(passes, maxChars, overlap)
      invariant chunks + ChunksFrom(text, start, maxChars, overlap) == ChunksFrom(text, 0, maxChars, overlap)
      decreases |text| - start
    {
      var end := start + maxChars;
      var chunk := text[start..Min(end, |text|)];
      chunks := chunks + [chunk];
      if end >= |text| {
        assert chunk == text[start..];
        break;
      }
      start := end - overlap;
      passes := passes + 1;
    }
  }

  lemma ChunkStartSucc(i: nat, maxChars: int, overlap: int)
    ensures ChunkStart(i + 1, maxChars, overlap) == ChunkStart(i, maxChars, overlap) + (maxChars - overlap)
  {
  }

  /** The windows produced from offset `start`: window `i` begins `ChunkStart(i)` after
      `start`, is the text up to `maxChars` further (clipped to the text), and unless it
      is the last window it stops short of the end of the text. */
  lemma {:induction false} ChunksFromAt(text: string, start: nat, maxChars: int, overlap: int, i: nat)
    requires ValidWindow(maxChars, overlap)
    requires i < |ChunksFrom(text, start, maxChars, overlap)|
    ensures 0 <= start + ChunkStart(i, maxChars, overlap) < |text|
    ensures ChunksFrom(text, start, maxChars, overlap)[i] ==
      text[start + ChunkStart(i, maxChars, overlap)..Min(start + ChunkStart(i, maxChars, overlap) + maxChars, |text|)]
    ensures i + 1 < |ChunksFrom(text, start, maxChars, overlap)| ==>
      start + ChunkStart(i, maxChars, overlap) + maxChars < |text|
    decreases |text| - start
  {
    if start + maxChars >= |text| || i == 0 {
      return;
    }
    var next := start + maxChars - overlap;
    assert ChunksFrom(text, start, maxChars, overlap)
      == [text[start..start + maxChars]] + ChunksFrom(text, next, maxChars, overlap);
    ChunksFromAt(text, next, maxChars, overlap, i - 1);
    ChunkStartSucc(i - 1, maxChars, overlap);
  }

  /** Offset just past window `i`: `maxChars` after its start, clipped to the text. */
  function ChunkEnd(text: string, i: nat, maxChars: int, overlap: int): int {
    Min(ChunkStart(i, maxChars, overlap) + maxChars, |text|)
  }

  /** Chunk `i` is `text[i * (maxChars - overlap) .. min(that + maxChars, len(text))]`,
      so no chunk is longer than `maxChars`, and there is always at least one chunk. */
  lemma ChunkWindows(text: string, maxChars: int, overlap: int, i: nat)
    requires ValidWindow(maxChars, overlap)
    ensures |Chunks(text, maxChars, overlap)| >= 1
    ensures i < |Chunks(text, maxChars, overlap)| ==>
      0 <= ChunkStart(i, maxChars, overlap) <= ChunkEnd(text, i, maxChars, overlap) <= |text| &&
      Chunks(text, maxChars, overlap)[i] == text[ChunkStart(i, maxChars, overlap)..ChunkEnd(text, i, maxChars, overlap)] &&
      |Chunks(text, maxChars, overlap)[i]| <= maxChars
  {
    if |text| > maxChars {
      assert |ChunksFrom(text, 0, maxChars, overlap)| >= 1;
      if i < |Chunks(text, maxChars, overlap)| {
        ChunksFromAt(text, 0, maxChars, overlap, i);
      }
    }
  }

  /** With a non-negative overlap the last window of the loop reaches the end of the text. */
  lemma {:induction false} ChunksFromLast(text: string, start: nat, maxChars: int, overlap: int)
    requires ValidWindow(maxChars, overlap) && 0 <= overlap && start < |text|
    ensures |ChunksFrom(text, start, maxChars, overlap)| >= 1
    ensures start + ChunkStart(|ChunksFrom(text, start, maxChars, overlap)| - 1, maxChars, overlap) + maxChars >= |text|
    decreases |text| - start
  {
    if start + maxChars < |text| {
      var next := start + maxChars - overlap;
      var rest := ChunksFrom(text, next, maxChars, overlap);
      assert ChunksFrom(text, start, maxChars, overlap) == [text[start..start + maxChars]] + rest;
      ChunksFromLast(text, next, maxChars, overlap);
      ChunkStartSucc(|rest| - 1, maxChars, overlap);
    }
  }

  /** With a non-negative overlap, the last chunk ends exactly at the end of the text and
      every other chunk ends before it. */
  lemma ChunksReachEnd(text: string, maxChars: int, overlap: int)
    requires ValidWindow(maxChars, overlap) && 0 <= overlap
    ensures |Chunks(text, maxChars, overlap)| >= 1
    ensures ChunkEnd(text, |Chunks(text, maxChars, overlap)| - 1, maxChars, overlap) == |text|
    ensures forall i :: 0 <= i < |Chunks(text, maxChars, overlap)| - 1 ==>
      ChunkEnd(text, i, maxChars, overlap) < |text|
  {
    if |text| > maxChars {
      ChunksFromLast(text, 0, maxChars, overlap);
      forall i | 0 <= i < |Chunks(text, maxChars, overlap)| - 1
        ensures ChunkEnd(text, i, maxChars, overlap) < |text|
      {
        ChunksFromAt(text, 0, maxChars, overlap, i);
      }
    }
  }

  /** With a non-negative overlap, the last `overlap` characters of a chunk are the first
      `overlap` characters of the next one. */
  lemma ChunksOverlap(text: string, maxChars: int, overlap: int, i: nat)
    requires ValidWindow(maxChars, overlap) && 0 <= overlap
    requires i + 1 < |Chunks(text, maxChars, overlap)|
    ensures |Chunks(text, maxChars, overlap)[i]| == maxChars
    ensures overlap <= |Chunks(text, maxChars, overlap)[i + 1]|
    ensures Chunks(text, maxChars, overlap)[i][maxChars - overlap..] == Chunks(text, maxChars, overlap)[i + 1][..overlap]
  {
    var cs := Chunks(text, maxChars, overlap);
    ChunksFromAt(text, 0, maxChars, overlap, i);
    ChunksFromAt(text, 0, maxChars, overlap, i + 1);
    ChunkStartSucc(i, maxChars, overlap);
    var a := ChunkStart(i, maxChars, overlap);
    var b := a + maxChars - overlap;
    assert cs[i] == text[a..a + maxChars];
    assert cs[i + 1] == text[b..Min(b + maxChars, |text|)];
    assert cs[i][maxChars - overlap..] == text[b..a + maxChars];
    assert cs[i + 1][..overlap] == text[b..a + maxChars];
  }

  lemma {:induction false} ChunksFromCover(text: string, start: nat, maxChars: int, overlap: int, p: int)
    requires ValidWindow(maxChars, overlap) && 0 <= overlap
    requires start <= p < |text|
    ensures exists i :: (0 <= i < |ChunksFrom(text, start, maxChars, overlap)| &&
      start + ChunkStart(i, maxChars, overlap) <= p < Min(start + ChunkStart(i, maxChars, overlap) + maxChars, |text|))
    decreases |text| - start
  {
    var cs := ChunksFrom(text, start, maxChars, overlap);
    if start + maxChars >= |text| || p < start + maxChars {
      assert ChunkStart(0, maxChars, overlap) == 0;
      assert 0 < |cs|;
    } else {
      var next := start + maxChars - overlap;
      var rest := ChunksFrom(text, next, maxChars, overlap);
      assert cs == [text[start..start + maxChars]] + rest;
      ChunksFromCover(text, next, maxChars, overlap, p);
      var j :| 0 <= j < |rest| &&
        next + ChunkStart(j, maxChars, overlap) <= p < Min(next + ChunkStart(j, maxChars, overlap) + maxChars, |text|);
      ChunkStartSucc(j, maxChars, overlap);
      assert start + ChunkStart(j + 1, maxChars, overlap) == next + ChunkStart(j, maxChars, overlap);
    }
  }

  /** With a non-negative overlap, every character position of the text lies in some chunk. */
  lemma ChunksCover(text: string, maxChars: int, overlap: int, p: int)
    requires ValidWindow(maxChars, overlap) && 0 <= overlap
    requires 0 <= p < |text|
    ensures exists i :: (0 <= i < |Chunks(text, maxChars, overlap)| &&
      ChunkStart(i, maxChars, overlap) <= p < ChunkEnd(text, i, maxChars, overlap))
  {
    if |text| <= maxChars {
      assert ChunkStart(0, maxChars, overlap) == 0;
    } else {
      ChunksFromCover(text, 0, maxChars, overlap, p);
    }
  }

  /** A 1000-character text with the defaults gives two chunks, `[0, 800)` and `[700, 1000)`. */
  lemma ChunksOfThousand(text: string)
    requires |text| == 1000
    ensures Chunks(text, DefaultMaxChars, DefaultOverlap) == [text[0..800], text[700..1000]]
  {
    assert text[700..] == text[700..1000];
    assert ChunksFrom(text, 700, 800, 100) == [text[700..1000]];
    assert ChunksFrom(text, 0, 800, 100) == [text[0..800]] + ChunksFrom(text, 700, 800, 100);
    assert Chunks(text, 800, 100) == ChunksFrom(text, 0, 800, 100);
  }

  /** The value of `start` in the loop of `chunk_text` after `n` passes that did not
      break: each such pass sets `start` to `start + maxChars - overlap`. `ChunkText`'s
      loop invariant ties its `start` to this function. */
  function LoopStart(n: nat, maxChars: int, overlap: int): int {
    if n == 0 then 0 else LoopStart(n - 1, maxChars, overlap) + maxChars - overlap
  }

  /** The loop's starts are the window starts `ChunkStart(n)`, whatever the parameters. */
  lemma {:induction false} LoopStartIsChunkStart(n: nat, maxChars: int, overlap: int)
    ensures LoopStart(n, maxChars, overlap) == ChunkStart(n, maxChars, overlap)
  {
    if n > 0 {
      LoopStartIsChunkStart(n - 1, maxChars, overlap);
      ChunkStartSucc(n - 1, maxChars, overlap);
    }
  }

  /** With `overlap >= maxChars` and a text longer than `maxChars`, `start` never
      advances: after `n` passes it is `n * (maxChars - overlap) <= 0`, so the loop
      condition still holds and the window never reaches the end, and `chunk_text`
      does not terminate. (A text of at most `maxChars` characters is returned before
      the loop, whatever the overlap.) */
  lemma {:induction false} LoopNeverEnds(text: string, maxChars: int, overlap: int, n: nat)
    requires 0 <= maxChars < |text| && overlap >= maxChars
    ensures LoopStart(n, maxChars, overlap) == ChunkStart(n, maxChars, overlap) <= 0
    ensures LoopStart(n, maxChars, overlap) < |text|
    ensures LoopStart(n, maxChars, overlap) + maxChars < |text|
  {
    LoopStartIsChunkStart(n, maxChars, overlap);
    NonPositiveSteps(n, maxChars - overlap);
  }

  /** `n` steps of a non-positive stride never move forward. */
  lemma {:induction false} NonPositiveSteps(n: nat, stride: int)
    requires stride <= 0
    ensures n * stride <= 0
  {
    if n > 0 {
      NonPositiveSteps(n - 1, stride);
      assert n * stride == (n - 1) * stride + stride;
    }
  }

  // ===========================================================================
  // load_file_docs, CSV branch
  // ===========================================================================

  /** The `"h: v"` strings over `zip(header, row)`, which stops at the shorter of the two. */
  function Fields(header: seq<string>, row: seq<string>): (fields: seq<string>)
    ensures |fields| == Min(|header|, |row|)
    ensures forall j :: 0 <= j < |fields| ==> fields[j] == header[j] + ": " + row[j]
  {
    if header == [] || row == [] then []
    else [header[0] + ": " + row[0]] + Fields(header[1..], row[1..])
  }

  /** The text of one CSV data row: its fields joined with `", "`. */
  function RowText(header: seq<string>, row: seq<string>): string {
    Join(", ", Fields(header, row))
  }

  /** The documents of the CSV branch of `load_file_docs`: data row `i` (1-based) becomes
      the document holding its joined fields, labelled `row = i`. */
  function CsvRowDocs(rows: seq<seq<string>>, source: string): seq<Doc> {
    if rows == [] then []
    else seq(|rows| - 1, i requires 0 <= i < |rows| - 1 => Doc(RowText(rows[0], rows[i + 1]), source, Some(i + 1)))
  }

  /** The CSV branch of `load_file_docs`, given the rows the CSV reader produced: no
      rows gives no documents; otherwise the first row is the header and each later row
      becomes one document labelled with its 1-based row number. */
  method CsvDocs(rows: seq<seq<string>>, source: string) returns (docs: seq<Doc>)
    ensures docs == CsvRowDocs(rows, source)
    ensures rows == [] ==> docs == []
    ensures |docs| == if rows == [] then 0 else |rows| - 1
    ensures forall i :: 0 <= i < |docs| ==>
      docs[i] == Doc(RowText(rows[0], rows[i + 1]), source, Some(i + 1))
  {
    docs := [];
    if rows == [] {
      return;
    }
    var header := rows[0];
    for i := 1 to |rows|
      invariant |docs| == i - 1
      invariant forall j :: 0 <= j < |docs| ==>
        docs[j] == Doc(RowText(header, rows[j + 1]), source, Some(j + 1))
    {
      var text := RowText(header, rows[i]);
      docs := docs + [Doc(text, source, Some(i))];
    }
  }

  /** A row of two fields under a two-column header gives `"h1: v1, h2: v2"`. */
  lemma RowTextTwoFields(h1: string, h2: string, v1: string, v2: string)
    ensures RowText([h1, h2], [v1, v2]) == h1 + ": " + v1 + ", " + h2 + ": " + v2
  {
    var fields := Fields([h1, h2], [v1, v2]);
    assert fields == [h1 + ": " + v1, h2 + ": " + v2];
    assert Join(", ", fields) == fields[0] + ", " + Join(", ", [fields[1]]);
  }

  // ===========================================================================
  // ingest_data: flattening documents into texts and metadata
  // ===========================================================================

  /** The chunks `ingest_data` makes of one document (with the defaults of `chunk_text`). */
  function DocChunks(doc: Doc): seq<string> {
    Chunks(doc.text, DefaultMaxChars, DefaultOverlap)
  }

  /** The metadata of the `count` chunks of one document. */
  function DocMetas(doc: Doc, count: nat): seq<Meta> {
    seq(count, i requires 0 <= i < count => Meta(Some(doc.source), i, doc.row))
  }

  /** All chunk texts, document after document. */
  function IndexTexts(docs: seq<Doc>): seq<string> {
    if docs == [] then []
    else IndexTexts(docs[..|docs| - 1]) + DocChunks(docs[|docs| - 1])
  }

  /** All chunk metadata, in the same order as `IndexTexts`. */
  function IndexMetas(docs: seq<Doc>): seq<Meta> {
    if docs == [] then []
    else
      var last := docs[|docs| - 1];
      IndexMetas(docs[..|docs| - 1]) + DocMetas(last, |DocChunks(last)|)
  }

  /** Number of chunks of all the documents. */
  function ChunkTotal(docs: seq<Doc>): nat {
    if docs == [] then 0 else ChunkTotal(docs[..|docs| - 1]) + |DocChunks(docs[|docs| - 1])|
  }

  /** Position in the index of the first chunk of document `d`. */
  function DocOffset(docs: seq<Doc>, d: nat): nat
    requires d <= |docs|
  {
    ChunkTotal(docs[..d])
  }

  /** The nested loops of `ingest_data`: for each document, for each of its chunks, append
      the chunk text and its metadata (with `row` copied when the document has one). */
  method IngestDocs(docs: seq<Doc>) returns (texts: seq<string>, metas: seq<Meta>)
    ensures texts == IndexTexts(docs) && metas == IndexMetas(docs)
    ensures |texts| == |metas| == ChunkTotal(docs)
  {
    texts, metas := [], [];
    for d := 0 to |docs|
      invariant texts == IndexTexts(docs[..d]) && metas == IndexMetas(docs[..d])
      invariant |texts| == |metas|
    {
      var doc := docs[d];
      var chunks := ChunkText(doc.text, DefaultMaxChars, DefaultOverlap);
      ghost var texts0, metas0 := texts, metas;
      for i := 0 to |chunks|
        invariant texts == texts0 + chunks[..i]
        invariant metas == metas0 + DocMetas(doc, |chunks|)[..i]
        invariant |texts| == |metas|
      {
        texts := texts + [chunks[i]];
        var meta := Meta(Some(doc.source), i, None);
        if doc.row.Some? {
          meta := meta.(row := doc.row);
        }
        metas := metas + [meta];
        assert chunks[..i + 1] == chunks[..i] + [chunks[i]];
        assert DocMetas(doc, |chunks|)[..i + 1] == DocMetas(doc, |chunks|)[..i] + [meta];
      }
      assert chunks[..|chunks|] == chunks;
      assert DocMetas(doc, |chunks|)[..|chunks|] == DocMetas(doc, |chunks|);
      IndexStep(docs, d);
    }
    assert docs[..|docs|] == docs;
    IndexLengths(docs);
  }

  /** Taking one more document appends its chunks and their metadata. */
  lemma IndexStep(docs: seq<Doc>, d: nat)
    requires d < |docs|
    ensures IndexTexts(docs[..d + 1]) == IndexTexts(docs[..d]) + DocChunks(docs[d])
    ensures IndexMetas(docs[..d + 1]) == IndexMetas(docs[..d]) + DocMetas(docs[d], |DocChunks(docs[d])|)
  {
    assert docs[..d + 1][..d] == docs[..d];
  }

  /** The two lists have one entry per chunk. */
  lemma {:induction false} IndexLengths(docs: seq<Doc>)
    ensures |IndexTexts(docs)| == ChunkTotal(docs)
    ensures |IndexMetas(docs)| == ChunkTotal(docs)
  {
    if docs != [] {
      IndexLengths(docs[..|docs| - 1]);
    }
  }

  /** Chunk `i` of document `d` is at position `DocOffset(d) + i` of both lists: its text
      is that chunk, and its metadata names the document's source, `chunk_index == i`, and
      carries a `row` exactly when the document has one. */
  lemma {:induction false} IndexAt(docs: seq<Doc>, d: nat, i: nat)
    requires d < |docs| && i < |DocChunks(docs[d])|
    ensures DocOffset(docs, d) + i < ChunkTotal(docs)
    ensures |IndexTexts(docs)| == |IndexMetas(docs)| == ChunkTotal(docs)
    ensures IndexTexts(docs)[DocOffset(docs, d) + i] == DocChunks(docs[d])[i]
    ensures IndexMetas(docs)[DocOffset(docs, d) + i] == Meta(Some(docs[d].source), i, docs[d].row)
    ensures IndexMetas(docs)[DocOffset(docs, d) + i].row.Some? <==> docs[d].row.Some?
    decreases |docs|
  {
    var init := docs[..|docs| - 1];
    IndexLengths(docs);
    IndexLengths(init);
    if d == |docs| - 1 {
      assert docs[..d] == init;
    } else {
      assert init[..d] == docs[..d];
      assert init[d] == docs[d];
      IndexAt(init, d, i);
    }
  }

  /** Document offsets never decrease, and document `d`'s chunks end where `d + 1`'s begin. */
  lemma {:induction false} DocOffsetStep(docs: seq<Doc>, d: nat)
    requires d < |docs|
    ensures DocOffset(docs, d + 1) == DocOffset(docs, d) + |DocChunks(docs[d])|
  {
    assert docs[..d + 1][..d] == docs[..d];
  }

  /** Every position of the index belongs to some document's run of chunks, so the lists
      hold nothing but the chunks `IndexAt` describes; `IndexRunsDisjoint` shows the run
      is unique. */
  lemma {:induction false} IndexLocate(docs: seq<Doc>, p: nat)
    requires p < ChunkTotal(docs)
    ensures exists d :: 0 <= d < |docs| && DocOffset(docs, d) <= p < DocOffset(docs, d) + |DocChunks(docs[d])|
    decreases |docs|
  {
    var last := |docs| - 1;
    var init := docs[..last];
    assert docs[..last] == init;
    if p >= ChunkTotal(init) {
      assert DocOffset(docs, last) == ChunkTotal(init);
    } else {
      IndexLocate(init, p);
      var d :| 0 <= d < |init| && DocOffset(init, d) <= p < DocOffset(init, d) + |DocChunks(init[d])|;
      assert init[..d] == docs[..d];
      assert DocOffset(docs, d) == DocOffset(init, d);
    }
  }

  /** Offsets never decrease from one document to a later one. */
  lemma {:induction false} DocOffsetMono(docs: seq<Doc>, d: nat, e: nat)
    requires d <= e <= |docs|
    ensures DocOffset(docs, d) <= DocOffset(docs, e)
    decreases e - d
  {
    if d < e {
      DocOffsetStep(docs, d);
      DocOffsetMono(docs, d + 1, e);
    }
  }

  /** The runs of two different documents share no position, so each position of the
      index comes from exactly one document. */
  lemma IndexRunsDisjoint(docs: seq<Doc>, p: nat, d1: nat, d2: nat)
    requires d1 < |docs| && d2 < |docs|
    requires DocOffset(docs, d1) <= p < DocOffset(docs, d1) + |DocChunks(docs[d1])|
    requires DocOffset(docs, d2) <= p < DocOffset(docs, d2) + |DocChunks(docs[d2])|
    ensures d1 == d2
  {
    if d1 < d2 {
      DocOffsetStep(docs, d1);
      DocOffsetMono(docs, d1 + 1, d2);
    } else if d2 < d1 {
      DocOffsetStep(docs, d2);
      DocOffsetMono(docs, d2 + 1, d1);
    }
  }

  /** A CSV file with header `a,b` and data rows `1,2` and `3,4` becomes two documents
      and then two single-chunk entries, labelled with rows 1 and 2. */
  lemma IngestCsvExample(source: string)
    ensures var docs := CsvRowDocs([["a", "b"], ["1", "2"], ["3", "4"]], source);
      docs == [Doc("a: 1, b: 2", source, Some(1)), Doc("a: 3, b: 4", source, Some(2))] &&
      IndexTexts(docs) == ["a: 1, b: 2", "a: 3, b: 4"] &&
      IndexMetas(docs) == [Meta(Some(source), 0, Some(1)), Meta(Some(source), 0, Some(2))]
  {
    var rows := [["a", "b"], ["1", "2"], ["3", "4"]];
    RowTextTwoFields("a", "b", "1", "2");
    RowTextTwoFields("a", "b", "3", "4");
    var d1, d2 := Doc("a: 1, b: 2", source, Some(1)), Doc("a: 3, b: 4", source, Some(2));
    assert CsvRowDocs(rows, source)[0] == d1;
    assert CsvRowDocs(rows, source)[1] == d2;
    var docs := [d1, d2];
    assert CsvRowDocs(rows, source) == docs;
    assert docs[..1] == [d1] && [d1][..0] == [];
    assert DocChunks(d1) == [d1.text] && DocChunks(d2) == [d2.text];
    assert DocMetas(d1, 1) == [Meta(Some(source), 0, Some(1))];
    assert DocMetas(d2, 1) == [Meta(Some(source), 0, Some(2))];
    assert IndexTexts([d1]) == IndexTexts([]) + DocChunks(d1) == [d1.text];
    assert IndexTexts(docs) == IndexTexts([d1]) + DocChunks(d2);
    assert IndexMetas([d1]) == IndexMetas([]) + DocMetas(d1, 1);
    assert IndexMetas(docs) == IndexMetas([d1]) + DocMetas(d2, 1);
  }
}
