/** The vector store and `get_or_create_collection`: when the collection is
    empty it is filled from the PDF (split into chunks, one embedding per
    chunk, ids `doc-0`, `doc-1`, ...); otherwise it is used as it is. The
    collection keeps its records in the order they were added. */
module Store {
  import opened Results
  import opened PyStr
  import opened Chunking
  import opened Pdf

  type Embedding = seq<real>

  /** One stored (id, embedding, document) triple. */
  datatype Record = Record(id: string, embedding: Embedding, document: string)

  /** What `get_or_create_collection` did: filled the empty collection with
      `added` records, or found `count` records and left them alone. */
  datatype Outcome = Created(added: nat) | Loaded(count: nat)

  // ---------------------------------------------------------------- ids

  /** `f"doc-{i}"`. */
  function DocId(i: nat): string {
    "doc-" + DecimalString(i)
  }

  /** `[f"doc-{i}" for i in range(n)]`. */
  function DocIds(n: nat): (ids: seq<string>)
    ensures |ids| == n
  {
    seq(n, i requires 0 <= i < n => DocId(i))
  }

  /** Every id is `doc-` followed by the decimal digits of its index, and the
      index can be read back from it. */
  lemma DocIdRoundTrip(i: nat)
    ensures |DocId(i)| > 4 && DocId(i)[..4] == "doc-"
    ensures forall k :: 4 <= k < |DocId(i)| ==> IsDigit(DocId(i)[k])
    ensures DecimalValue(DocId(i)[4..]) == i
  {
    assert DocId(i)[4..] == DecimalString(i);
    DecimalRoundTrip(i);
  }

  /** The ids of one batch are pairwise distinct. */
  lemma DocIdsDistinct(n: nat)
    ensures Distinct(DocIds(n))
  {
    forall i, j | 0 <= i < j < n
      ensures DocIds(n)[i] != DocIds(n)[j]
    {
      if DocId(i) == DocId(j) {
        assert DocId(i)[4..] == DecimalString(i);
        assert DocId(j)[4..] == DecimalString(j);
        DecimalStringInjective(i, j);
      }
    }
  }

  // ---------------------------------------------------------------- add

  predicate Distinct(ids: seq<string>) {
    forall i, j :: 0 <= i < j < |ids| ==> ids[i] != ids[j]
  }

  /** `id` is the id of a stored record. */
  predicate Stored(records: seq<Record>, id: string) {
    exists k :: 0 <= k < |records| && records[k].id == id
  }

  /** No two records share an id. */
  ghost predicate UniqueIds(records: seq<Record>) {
    forall i, j :: 0 <= i < j < |records| ==> records[i].id != records[j].id
  }

  /** The records of one `add` call: the i-th id, embedding and document. */
  function Zip(ids: seq<string>, embeddings: seq<Embedding>, documents: seq<string>): seq<Record>
    requires |ids| == |embeddings| == |documents|
  {
    seq(|ids|, i requires 0 <= i < |ids| => Record(ids[i], embeddings[i], documents[i]))
  }

  /** Why the store refuses an `add` call, if it does: the three lists differ
      in length, or an id repeats within the batch or is already stored. */
  function AddError(records: seq<Record>, ids: seq<string>, embeddings: seq<Embedding>, documents: seq<string>): Option<Error> {
    if |ids| != |embeddings| || |ids| != |documents| then Some(LengthMismatch)
    else if !Distinct(ids) || exists i :: 0 <= i < |ids| && Stored(records, ids[i]) then Some(DuplicateId)
    else None
  }

  /** An accepted batch keeps the ids unique and puts the i-th id, embedding
      and document together in one record, after the records already stored. */
  lemma {:induction false} AddKeepsIdsUnique(records: seq<Record>, ids: seq<string>, embeddings: seq<Embedding>, documents: seq<string>)
    requires UniqueIds(records)
    requires AddError(records, ids, embeddings, documents).None?
    ensures UniqueIds(records + Zip(ids, embeddings, documents))
  {
    var all := records + Zip(ids, embeddings, documents);
    forall i, j | 0 <= i < j < |all|
      ensures all[i].id != all[j].id
    {
      if i >= |records| {
        assert all[i].id == ids[i - |records|] && all[j].id == ids[j - |records|];
      } else if j >= |records| {
        assert all[i] == records[i] && all[j].id == ids[j - |records|];
      }
    }
  }

  // ---------------------------------------------------------------- build

  /** The embedding service: the list of vectors it returns for a list of
      texts, or `None` when the call fails. */
  type Embedder = seq<string> -> Option<seq<Embedding>>

  /** The records that filling an empty collection from `pdf` produces, or the
      failure that stops it: the PDF is missing, the embedding call fails, or
      the store refuses the batch (the embedding service returned a different
      number of vectors than there are chunks). */
  function Populate(pdf: PdfFile, embed: Embedder): Result<seq<Record>, Error> {
    match PdfText(pdf)
    case Failure(e) => Failure(e)
    case Success(text) =>
      var chunks := Chunks(text, DefaultChunkSize, DefaultOverlap);
      match embed(chunks)
      case None => Failure(EmbeddingFailed)
      case Some(embeddings) =>
        var ids := DocIds(|chunks|);
        match AddError([], ids, embeddings, chunks)
        case Some(e) => Failure(e)
        case None => Success(Zip(ids, embeddings, chunks))
  }

  /** Filling fails exactly when the PDF is missing, the embedding call fails,
      or it returns one vector per chunk too many or too few, and each of the
      three has its own error; the ids of one fill never clash. */
  lemma PopulateFails(pdf: PdfFile, embed: Embedder)
    ensures Populate(pdf, embed) == Failure(FileNotFound) <==> pdf.Missing?
    ensures Populate(pdf, embed) == Failure(EmbeddingFailed) <==>
      pdf.Present? && embed(Chunks(PdfText(pdf).value, DefaultChunkSize, DefaultOverlap)).None?
    ensures Populate(pdf, embed) == Failure(LengthMismatch) <==>
      pdf.Present? &&
      (var chunks := Chunks(PdfText(pdf).value, DefaultChunkSize, DefaultOverlap);
       embed(chunks).Some? && |embed(chunks).value| != |chunks|)
    ensures Populate(pdf, embed).Failure? <==>
      || pdf.Missing?
      || (var chunks := Chunks(PdfText(pdf).value, DefaultChunkSize, DefaultOverlap);
          embed(chunks).None? || |embed(chunks).value| != |chunks|)
  {
    if PdfText(pdf).Success? {
      DocIdsDistinct(|Chunks(PdfText(pdf).value, DefaultChunkSize, DefaultOverlap)|);
    }
  }

  /** A successful fill stores one record per chunk of the PDF's text, in
      chunk order: record `i` has id `doc-i`, the `i`-th embedding and the
      `i`-th chunk, which is non-empty and not padded with whitespace; no two
      records share an id. */
  lemma PopulateShape(pdf: PdfFile, embed: Embedder)
    requires Populate(pdf, embed).Success?
    ensures var rs, chunks := Populate(pdf, embed).value, Chunks(PdfText(pdf).value, DefaultChunkSize, DefaultOverlap);
      && |rs| == |chunks|
      && (forall i :: 0 <= i < |rs| ==>
            rs[i] == Record(DocId(i), embed(chunks).value[i], chunks[i]))
      && (forall i :: 0 <= i < |rs| ==>
            rs[i].document != [] && !IsSpace(rs[i].document[0]) && !IsSpace(rs[i].document[|rs[i].document| - 1]))
      && UniqueIds(rs)
  {
    var text := PdfText(pdf).value;
    var chunks := Chunks(text, DefaultChunkSize, DefaultOverlap);
    var rs := Populate(pdf, embed).value;
    ChunkShape(text, DefaultChunkSize, DefaultOverlap);
    AddKeepsIdsUnique([], DocIds(|chunks|), embed(chunks).value, chunks);
    assert [] + rs == rs;
    forall i | 0 <= i < |rs|
      ensures rs[i].document != [] && !IsSpace(rs[i].document[0]) && !IsSpace(rs[i].document[|rs[i].document| - 1])
    {
      assert rs[i].document == chunks[i];
      assert chunks[i] in chunks;
    }
  }

  // ---------------------------------------------------------------- collection

  /** A persistent collection of records. */
  class Collection {
    var records: seq<Record>

    ghost predicate Valid()
      reads this
    {
      UniqueIds(records)
    }

    /** A new, empty collection. */
    constructor ()
      ensures records == [] && Valid()
    {
      records := [];
    }

    /** `collection.count()`. */
    function Count(): nat
      reads this
    {
      |records|
    }

    /** `collection.add(ids=..., embeddings=..., documents=...)`: either the
        whole batch is appended or, with the reason, nothing is. */
    method Add(ids: seq<string>, embeddings: seq<Embedding>, documents: seq<string>) returns (err: Option<Error>)
      requires Valid()
      modifies this
      ensures Valid()
      ensures err == AddError(old(records), ids, embeddings, documents)
      ensures err.None? ==> records == old(records) + Zip(ids, embeddings, documents)
      ensures err.Some? ==> records == old(records)
    {
      err := AddError(records, ids, embeddings, documents);
      if err.None? {
        AddKeepsIdsUnique(records, ids, embeddings, documents);
        records := records + Zip(ids, embeddings, documents);
      }
    }

    /** The count check of `get_or_create_collection`. An empty collection is
        filled from `pdf`, with `embed` standing for the embedding service;
        a non-empty one is returned untouched, and then neither the PDF nor
        the embedding service is consulted. */
    method BuildOrLoad(pdf: PdfFile, embed: Embedder) returns (r: Result<Outcome, Error>)
      requires Valid()
      modifies this
      ensures Valid()
      ensures old(records) != [] ==> records == old(records) && r == Success(Loaded(|records|))
      ensures old(records) == [] && Populate(pdf, embed).Success? ==>
        records == Populate(pdf, embed).value && r == Success(Created(|records|))
      ensures old(records) == [] && Populate(pdf, embed).Failure? ==>
        records == old(records) && r == Failure(Populate(pdf, embed).error)
    {
      if Count() == 0 {
        var text := LoadPdfText(pdf);
        if text.Failure? {
          return Failure(text.error);
        }
        var chunks := SplitText(text.value, DefaultChunkSize, DefaultOverlap);
        var response := embed(chunks);
        if response.None? {
          return Failure(EmbeddingFailed);
        }
        var ids := DocIds(|chunks|);
        var err := Add(ids, response.value, chunks);
        if err.Some? {
          return Failure(err.value);
        }
        assert [] + Zip(ids, response.value, chunks) == Zip(ids, response.value, chunks);
        r := Success(Created(|chunks|));
      } else {
        r := Success(Loaded(Count()));
      }
    }
  }

  /** Two runs in a row against the same collection, both reading the same
      PDF and getting the same answers from the embedding service. A collection
      that already held records keeps them and both runs only load them. Once
      the first run has left records behind, the second only loads them and
      changes nothing. When the first run fails, or the PDF has no text at all
      so that it leaves the collection empty, the second run builds again and
      ends the same way. */
  method BuildTwice(c: Collection, pdf: PdfFile, embed: Embedder)
    returns (first: Result<Outcome, Error>, second: Result<Outcome, Error>, ghost afterFirst: seq<Record>)
    requires c.Valid()
    modifies c
    ensures c.Valid()
    ensures old(c.records) != [] ==>
      c.records == old(c.records) && first == second == Success(Loaded(|old(c.records)|))
    ensures old(c.records) == [] && first.Success? ==>
      Populate(pdf, embed).Success? && afterFirst == Populate(pdf, embed).value
    ensures first.Success? && afterFirst != [] ==>
      c.records == afterFirst && second == Success(Loaded(|afterFirst|))
    ensures first.Success? && afterFirst == [] ==> second == first && c.records == []
    ensures first.Failure? ==> second == first && c.records == []
  {
    first := c.BuildOrLoad(pdf, embed);
    afterFirst := c.records;
    second := c.BuildOrLoad(pdf, embed);
  }
}
