/**
 * ingest_csv_to_docs (backend/preprocess_and_train.py): every CSV row becomes
 * one document per chunk of its description and habitat, with ids
 * "<id>_0", "<id>_1", ... and the row's species id, name and taxonomy.
 */
module Ingest {

  import opened Wrappers
  import opened PyStrings
  import opened TextClean
  import opened Chunking

  /**
   * A CSV row, restricted to the columns the ingest reads. A column the row
   * lacks is None; a present value is held as its str() rendering.
   */
  datatype Row = Row(
    id: Option<string>,
    name: Option<string>,
    taxonomy: Option<string>,
    description: Option<string>,
    habitat: Option<string>)

  /** One chunk document: the dict appended for each chunk of a row. */
  datatype Doc = Doc(id: string, speciesId: string, name: string, taxonomy: string, text: string)

  /** `row.get(column, "")`. */
  function Field(v: Option<string>): string {
    v.GetOr("")
  }

  /** The text that gets chunked: `" ".join(str(row.get(c, "")) for c in ["description", "habitat"])`. */
  function Description(row: Row): string {
    Field(row.description) + " " + Field(row.habitat)
  }

  /** The document id `f"{doc_id}_{idx}"`. */
  function ChunkId(docId: string, k: nat): string {
    docId + "_" + NatToString(k)
  }

  /** The chunks of a row's description, with chunk_text's default window and overlap. */
  function RowChunks(row: Row): seq<string> {
    Chunks(Clean(PyStr(Description(row))), DefaultChunkSize, DefaultOverlap)
  }

  /** One document per chunk: chunk k gets the id "<docId>_<k>" and the row's shared fields. */
  function ChunkDocs(docId: string, name: string, taxonomy: string, chunks: seq<string>): seq<Doc> {
    seq(|chunks|, k requires 0 <= k < |chunks| => Doc(ChunkId(docId, k), docId, name, taxonomy, chunks[k]))
  }

  /** The documents one row contributes: chunk k becomes document k. */
  function RowDocs(row: Row): seq<Doc> {
    ChunkDocs(Field(row.id), Field(row.name), Field(row.taxonomy), RowChunks(row))
  }

  /** The lists `f(x)` for the elements of `xs`, concatenated in order. */
  function FlatMap<A, B>(xs: seq<A>, f: A -> seq<B>): seq<B> {
    if xs == [] then [] else FlatMap(xs[..|xs| - 1], f) + f(xs[|xs| - 1])
  }

  lemma {:induction false} FlatMapAppend<A, B>(xs: seq<A>, ys: seq<A>, f: A -> seq<B>)
    ensures FlatMap(xs + ys, f) == FlatMap(xs, f) + FlatMap(ys, f)
    decreases |ys|
  {
    if ys == [] {
      assert xs + ys == xs;
    } else {
      var all := xs + ys;
      assert all[..|all| - 1] == xs + ys[..|ys| - 1] && all[|all| - 1] == ys[|ys| - 1];
      FlatMapAppend(xs, ys[..|ys| - 1], f);
    }
  }

  /** The documents of all rows, row after row. */
  function DocsOf(rows: seq<Row>): seq<Doc> {
    FlatMap(rows, RowDocs)
  }

  /** ingest_csv_to_docs once the CSV is read: for each row in order, its chunks become documents. */
  method IngestRows(rows: seq<Row>) returns (docs: seq<Doc>)
    ensures docs == DocsOf(rows)
  {
    docs := [];
    for r := 0 to |rows|
      invariant docs == DocsOf(rows[..r])
    {
      var row := rows[r];
      var docId := Field(row.id);
      var name := Field(row.name);
      var taxonomy := Field(row.taxonomy);
      var desc := Description(row);
      var chunks := ChunkText(PyStr(desc));
      docs := AppendChunkDocs(docs, docId, name, taxonomy, chunks);
      assert rows[..r + 1][..r] == rows[..r];
    }
    assert rows[..|rows|] == rows;
  }

  /** The inner loop of ingest_csv_to_docs: one document appended per chunk, in chunk order. */
  method AppendChunkDocs(docs: seq<Doc>, docId: string, name: string, taxonomy: string, chunks: seq<string>)
    returns (docs': seq<Doc>)
    ensures docs' == docs + ChunkDocs(docId, name, taxonomy, chunks)
  {
    docs' := docs;
    for idx := 0 to |chunks|
      invariant docs' == docs + ChunkDocs(docId, name, taxonomy, chunks)[..idx]
    {
      docs' := docs' + [Doc(ChunkId(docId, idx), docId, name, taxonomy, chunks[idx])];
      assert ChunkDocs(docId, name, taxonomy, chunks)[..idx + 1] ==
        ChunkDocs(docId, name, taxonomy, chunks)[..idx] + [ChunkDocs(docId, name, taxonomy, chunks)[idx]];
    }
    assert ChunkDocs(docId, name, taxonomy, chunks)[..|chunks|] == ChunkDocs(docId, name, taxonomy, chunks);
  }

  /** Rows in input order: the documents of two row lists are those of the first, then those of the second. */
  lemma DocsOfAppend(rows1: seq<Row>, rows2: seq<Row>)
    ensures DocsOf(rows1 + rows2) == DocsOf(rows1) + DocsOf(rows2)
  {
    FlatMapAppend(rows1, rows2, RowDocs);
  }

  /** The texts of a list of documents, in order. */
  function Texts(ds: seq<Doc>): seq<string> {
    seq(|ds|, k requires 0 <= k < |ds| => ds[k].text)
  }

  /**
   * Every document of a row carries the row's id, name and taxonomy and the
   * id "<id>_<k>" of its chunk index, and the texts of the documents rebuild
   * the row's cleaned description.
   */
  lemma RowDocsRebuildRow(row: Row)
    ensures |RowDocs(row)| >= 1
    ensures forall k :: 0 <= k < |RowDocs(row)| ==>
      && RowDocs(row)[k].id == ChunkId(Field(row.id), k)
      && RowDocs(row)[k].speciesId == Field(row.id)
      && RowDocs(row)[k].name == Field(row.name)
      && RowDocs(row)[k].taxonomy == Field(row.taxonomy)
    ensures Reassemble(Texts(RowDocs(row)), DefaultOverlap) == Clean(PyStr(Description(row)))
  {
    var text := Clean(PyStr(Description(row)));
    ChunksReassemble(text, DefaultChunkSize, DefaultOverlap);
    assert Texts(RowDocs(row)) == RowChunks(row);
  }

  /** The characters after the last `c` in `s`; all of `s` when it holds no `c`. */
  function AfterLast(s: string, c: char): string {
    if s == [] || s[|s| - 1] == c then [] else AfterLast(s[..|s| - 1], c) + [s[|s| - 1]]
  }

  /** A string of digits after an underscore is what follows the last underscore. */
  lemma {:induction false} AfterLastOfDigits(p: string, d: string)
    requires AllDigits(d)
    ensures AfterLast(p + "_" + d, '_') == d
    decreases |d|
  {
    if d != [] {
      var s := p + "_" + d;
      var init := d[..|d| - 1];
      assert s[..|s| - 1] == p + "_" + init && s[|s| - 1] == d[|d| - 1];
      AfterLastOfDigits(p, init);
      assert d == init + [d[|d| - 1]];
    }
  }

  /** The chunk index is the digits after the last "_", so an id names one species id and one chunk. */
  lemma ChunkIdInjective(a: string, i: nat, b: string, j: nat)
    requires ChunkId(a, i) == ChunkId(b, j)
    ensures a == b && i == j
  {
    var s := ChunkId(a, i);
    AfterLastOfDigits(a, NatToString(i));
    AfterLastOfDigits(b, NatToString(j));
    NatToStringInjective(i, j);
    assert a == s[..|a|] == b;
  }

  /** No two positions of a list of documents hold the same id. */
  predicate DistinctIds(ds: seq<Doc>) {
    forall p, q :: 0 <= p < q < |ds| ==> ds[p].id != ds[q].id
  }

  /** No two rows share an id. */
  predicate DistinctRowIds(rows: seq<Row>) {
    forall p, q :: 0 <= p < q < |rows| ==> Field(rows[p].id) != Field(rows[q].id)
  }

  /** Every document's id is "<species id>_<k>" for the id of one of the rows. */
  lemma {:induction false} DocsOfSpecies(rows: seq<Row>)
    ensures forall d :: d in DocsOf(rows) ==>
      (exists r :: 0 <= r < |rows| && d.speciesId == Field(rows[r].id)) &&
      (exists k: nat :: d.id == ChunkId(d.speciesId, k))
  {
    if rows != [] {
      var init := rows[..|rows| - 1];
      DocsOfSpecies(init);
      RowDocsRebuildRow(rows[|rows| - 1]);
      forall d | d in DocsOf(rows)
        ensures (exists r :: 0 <= r < |rows| && d.speciesId == Field(rows[r].id)) &&
          (exists k: nat :: d.id == ChunkId(d.speciesId, k))
      {
        if d in DocsOf(init) {
          var r :| 0 <= r < |init| && d.speciesId == Field(init[r].id);
          assert rows[r] == init[r];
        } else {
          var ds := RowDocs(rows[|rows| - 1]);
          assert d in ds;
          var k :| 0 <= k < |ds| && ds[k] == d;
          assert d.id == ChunkId(d.speciesId, k);
        }
      }
    }
  }

  /** When the rows have distinct ids, so do all the documents built from them. */
  lemma {:induction false} DocIdsDistinct(rows: seq<Row>)
    requires DistinctRowIds(rows)
    ensures DistinctIds(DocsOf(rows))
  {
    if rows != [] {
      var init := rows[..|rows| - 1];
      var last := rows[|rows| - 1];
      assert DistinctRowIds(init);
      DocIdsDistinct(init);
      DocsOfSpecies(init);
      RowDocsRebuildRow(last);
      var a, b := DocsOf(init), RowDocs(last);
      var ds := DocsOf(rows);
      assert ds == a + b;
      forall p, q | 0 <= p < q < |ds| ensures ds[p].id != ds[q].id {
        if q < |a| {
          assert ds[p] == a[p] && ds[q] == a[q];
        } else if p >= |a| {
          if ds[p].id == ds[q].id {
            ChunkIdInjective(Field(last.id), p - |a|, Field(last.id), q - |a|);
          }
        } else {
          var d := a[p];
          assert d in a;
          var r :| 0 <= r < |init| && d.speciesId == Field(init[r].id);
          var k: nat :| d.id == ChunkId(d.speciesId, k);
          assert Field(rows[r].id) != Field(last.id);
          if ds[p].id == ds[q].id {
            ChunkIdInjective(d.speciesId, k, Field(last.id), q - |a|);
          }
        }
      }
    }
  }
}
