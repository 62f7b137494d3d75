/** Optional values, fallible results, and the failures the ingestion pipeline
    can raise. */
module Results {

  datatype Option<T> = None | Some(value: T)

  datatype Result<T, E> = Success(value: T) | Failure(error: E)

  datatype Error =
    | FileNotFound      // the PDF does not exist
    | EmbeddingFailed   // the embedding service reported an error
    | LengthMismatch    // ids, embeddings and documents differ in length
    | DuplicateId       // an id repeats in the batch or is already stored
}
