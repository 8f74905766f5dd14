/**
 * The query side (backend/api.py): the hits of the nearest-neighbour search
 * are filtered against the loaded documents and joined into the context
 * handed to the answer generator; query_api wraps the outcome as an answer
 * or as an HTTP 500 error.
 */
module Retrieval {

  import opened Wrappers
  import opened PyStrings
  import opened Ingest

  /** A kept hit: a copy of the document, with its "_score" added. */
  datatype Entry<S> = Entry(doc: Doc, score: S)

  /** What query_api returns: `{"answer": ...}` with status 200, or `{"error": ...}` with a status code. */
  datatype Response = Answer(answer: string) | ServerError(error: string, status: int) {
    function Status(): int {
      match this
      case Answer(_) => 200
      case ServerError(_, code) => code
    }
  }

  /** The text placed between two entries of the context. */
  const Separator: string := "\n\n---\n\n"

  /** The status code of a failed query. */
  const InternalError: int := 500

  /** The index passes the guard `idx < 0 or idx >= len(docs)`, i.e. names a loaded document. */
  predicate InRange(idx: int, n: nat) {
    !(idx < 0 || idx >= n)
  }

  /** `zip(xs, ys)`: the pairs of equal positions, as many as the shorter list has. */
  function Zip<A, B>(xs: seq<A>, ys: seq<B>): (ps: seq<(A, B)>)
    ensures |ps| == if |xs| <= |ys| then |xs| else |ys|
    ensures forall i :: 0 <= i < |ps| ==> ps[i] == (xs[i], ys[i])
  {
    if xs == [] || ys == [] then [] else [(xs[0], ys[0])] + Zip(xs[1..], ys[1..])
  }

  /** The entries the loop of retrieve_context collects: one per in-range hit, in hit order. */
  function Retrieved<S>(docs: seq<Doc>, hits: seq<(int, S)>): seq<Entry<S>> {
    if hits == [] then []
    else
      var idx := hits[|hits| - 1].0;
      Retrieved(docs, hits[..|hits| - 1])
      + (if InRange(idx, |docs|) then [Entry(docs[idx], hits[|hits| - 1].1)] else [])
  }

  /**
   * The positions of the in-range hits, increasing: a position is listed
   * exactly when its index names a loaded document.
   */
  function KeptPositions<S>(n: nat, hits: seq<(int, S)>): (ps: seq<nat>)
    ensures |ps| <= |hits|
    ensures forall m :: 0 <= m < |ps| ==> ps[m] < |hits| && InRange(hits[ps[m]].0, n)
    ensures forall j :: 0 <= j < |hits| && InRange(hits[j].0, n) ==> j in ps
    ensures forall m, m' :: 0 <= m < m' < |ps| ==> ps[m] < ps[m']
  {
    if hits == [] then []
    else
      var last := |hits| - 1;
      KeptPositions(n, hits[..last]) + (if InRange(hits[last].0, n) then [last] else [])
  }

  /**
   * The collected entries are the in-range hits in hit order, each the
   * document its index names with the hit's score; nothing else is kept.
   */
  lemma {:induction false} RetrievedAreKept<S>(docs: seq<Doc>, hits: seq<(int, S)>)
    ensures |Retrieved(docs, hits)| == |KeptPositions(|docs|, hits)|
    ensures forall m :: 0 <= m < |Retrieved(docs, hits)| ==>
      var j := KeptPositions(|docs|, hits)[m];
      Retrieved(docs, hits)[m] == Entry(docs[hits[j].0], hits[j].1)
  {
    if hits != [] {
      var init := hits[..|hits| - 1];
      RetrievedAreKept(docs, init);
      var ps0 := KeptPositions(|docs|, init);
      var ps := KeptPositions(|docs|, hits);
      forall m | 0 <= m < |ps0| ensures ps[m] == ps0[m] && hits[ps0[m]] == init[ps0[m]] { }
    }
  }

  /** No hit is kept exactly when no index names a loaded document. */
  lemma RetrievedEmpty<S>(docs: seq<Doc>, hits: seq<(int, S)>)
    ensures Retrieved(docs, hits) == [] <==> forall j :: 0 <= j < |hits| ==> !InRange(hits[j].0, |docs|)
  {
    RetrievedAreKept(docs, hits);
    var ps := KeptPositions(|docs|, hits);
    if ps != [] {
      assert InRange(hits[ps[0]].0, |docs|);
    }
  }

  /** Filtering keeps the hits' order: the entries of two hit lists are those of the first, then those of the second. */
  lemma {:induction false} RetrievedAppend<S>(docs: seq<Doc>, hits1: seq<(int, S)>, hits2: seq<(int, S)>)
    ensures Retrieved(docs, hits1 + hits2) == Retrieved(docs, hits1) + Retrieved(docs, hits2)
    decreases |hits2|
  {
    if hits2 == [] {
      assert hits1 + hits2 == hits1;
    } else {
      var all := hits1 + hits2;
      assert all[..|all| - 1] == hits1 + hits2[..|hits2| - 1] && all[|all| - 1] == hits2[|hits2| - 1];
      RetrievedAppend(docs, hits1, hits2[..|hits2| - 1]);
    }
  }

  /** One entry of the context: `f"{r['name']} (id={r['id']}): {r['text']}"`. */
  function Format<S>(e: Entry<S>): string {
    e.doc.name + " (id=" + e.doc.id + "): " + e.doc.text
  }

  /** The formatted entries, in order. */
  function Formatted<S>(es: seq<Entry<S>>): seq<string> {
    seq(|es|, i requires 0 <= i < |es| => Format(es[i]))
  }

  /** The context string: the formatted entries joined by the separator. */
  function Context<S>(es: seq<Entry<S>>): string {
    Join(Formatted(es), Separator)
  }

  /** The context is empty exactly when no entry was collected; otherwise it opens with the first entry. */
  lemma ContextEmpty<S>(es: seq<Entry<S>>)
    ensures Context(es) == [] <==> es == []
    ensures es != [] ==> Format(es[0]) <= Context(es)
  {
    if es != [] {
      assert Formatted(es)[0] == Format(es[0]);
    }
  }

  /** Entries added later come after one separator: the context of two lists is their contexts joined. */
  lemma ContextAppend<S>(es1: seq<Entry<S>>, es2: seq<Entry<S>>)
    requires es1 != [] && es2 != []
    ensures Context(es1 + es2) == Context(es1) + Separator + Context(es2)
  {
    assert Formatted(es1 + es2) == Formatted(es1) + Formatted(es2);
    JoinAppend(Formatted(es1), Formatted(es2), Separator);
  }

  /** The context is empty exactly when none of the search's indices names a loaded document. */
  lemma NoContextWithoutHits<S>(docs: seq<Doc>, hits: seq<(int, S)>)
    ensures Context(Retrieved(docs, hits)) == [] <==> forall j :: 0 <= j < |hits| ==> !InRange(hits[j].0, |docs|)
  {
    RetrievedEmpty(docs, hits);
    ContextEmpty(Retrieved(docs, hits));
  }

  /** The API process: the documents it loaded at start-up and its two operations. */
  class Server {

    /** The documents read from the metadata file when the process starts. */
    var docs: seq<Doc>

    constructor (loaded: seq<Doc>)
      ensures docs == loaded
    {
      docs := loaded;
    }

    /**
     * retrieve_context once the search has returned the indices and scores
     * of its nearest neighbours. The loaded documents are only read.
     */
    method RetrieveContext<S>(ids: seq<int>, scores: seq<S>) returns (context: string)
      ensures context == Context(Retrieved(docs, Zip(ids, scores)))
    {
      var hits := Zip(ids, scores);
      var retrieved: seq<Entry<S>> := [];
      for h := 0 to |hits|
        invariant retrieved == Retrieved(docs, hits[..h])
      {
        var (idx, score) := hits[h];
        assert hits[..h + 1][..h] == hits[..h];
        if idx < 0 || idx >= |docs| {
          continue;
        }
        retrieved := retrieved + [Entry(docs[idx], score)];
      }
      assert hits[..|hits|] == hits;
      context := Join(Formatted(retrieved), Separator);
    }

    /**
     * query_api. `search` is the outcome of embedding the question and
     * searching the index: its indices and scores, or the message of the
     * exception it raised. `generate` is the answer generator, which turns
     * every failure of its own into an answer string.
     */
    method QueryApi<S>(question: string, search: Result<(seq<int>, seq<S>), string>,
                       generate: (string, string) -> string) returns (resp: Response)
      ensures resp.Status() == if search.Success? then 200 else InternalError
      ensures search.Failure? ==> resp == ServerError(search.error, InternalError)
      ensures search.Success? ==>
        resp == Answer(generate(question, Context(Retrieved(docs, Zip(search.value.0, search.value.1)))))
    {
      match search
      case Failure(e) =>
        resp := ServerError(e, InternalError);
      case Success(result) =>
        var context := RetrieveContext(result.0, result.1);
        resp := Answer(generate(question, context));
    }
  }
}
