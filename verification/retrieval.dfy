/** The last step of `retrieve_context`: the documents the store returned for
    the question are joined into one context string. The embedding of the
    question and the nearest-neighbour query are not modelled; the query's
    `documents` field is the input. */
module Retrieval {
  import opened Results
  import opened PyStr

  /** What goes between two retrieved documents. */
  const Separator := "\n\n---\n\n"

  /** `results["documents"][0] if results["documents"] else []`: the field holds
      one list of documents per query embedding, or `None`; the one query's list
      is used, and a missing or empty field means no documents. */
  function RetrievedDocuments(documents: Option<seq<seq<string>>>): seq<string> {
    if documents.Some? && documents.value != [] then documents.value[0] else []
  }

  /** The context string `retrieve_context` returns. */
  function Context(documents: Option<seq<seq<string>>>): string {
    Join(RetrievedDocuments(documents), Separator)
  }

  /** No retrieved documents give the empty context; a single one is the
      context unchanged. */
  lemma ContextFewDocuments(documents: Option<seq<seq<string>>>)
    ensures documents.None? || documents.value == [] ==> Context(documents) == ""
    ensures RetrievedDocuments(documents) == [] ==> Context(documents) == ""
    ensures |RetrievedDocuments(documents)| == 1 ==> Context(documents) == RetrievedDocuments(documents)[0]
  {
  }

  /** With `n > 0` documents the context holds them in rank order, the
      separator right before each one but the first, nothing after the last,
      and exactly `n - 1` separators' worth of extra characters. */
  lemma ContextLayout(documents: Option<seq<seq<string>>>)
    requires RetrievedDocuments(documents) != []
    ensures var docs, context := RetrievedDocuments(documents), Context(documents);
      && |context| == TotalLength(docs) + (|docs| - 1) * |Separator|
      && |context| == JoinOffset(docs, Separator, |docs| - 1) + |docs[|docs| - 1]|
      && (forall i :: 0 <= i < |docs| ==> PartPlaced(context, docs, Separator, i))
      && (forall i :: 0 < i < |docs| ==> SeparatorBefore(context, docs, Separator, i))
  {
    JoinLayout(RetrievedDocuments(documents), Separator);
    JoinLength(RetrievedDocuments(documents), Separator);
  }
}
