/**
 * The part of `create_faiss_index` that precedes the library: one embedding per chunk,
 * collected in chunk order, and the matrix dimension read off the collected rows.
 * Row `k` of the matrix is the embedding of chunk `k`; search results are ordinals
 * into this matrix, and the caller resolves them against the same chunk list.
 */
module EmbeddingIndex {
  import opened Wrappers

  /** One embedding vector. */
  type Embedding = seq<real>

  /** The embedding service: it returns a vector or fails with a message. */
  type Embedder = string -> Result<Embedding, string>

  /** The ways building the index input can fail. */
  datatype IndexError =
    | GatewayFailure(message: string)  // the embedding service raised; the exception propagates
    | NoRows                           // an empty list has no second axis to read the dimension from
    | RaggedRows                       // rows of different lengths do not form a matrix

  /** What is handed to the flat L2 index: the dimension and the rows, row `k` for chunk `k`. */
  datatype IndexInput = IndexInput(dimension: nat, rows: seq<Embedding>)

  /** Every chunk is embedded without failure. */
  predicate AllEmbedded(chunks: seq<string>, embed: Embedder) {
    forall k :: 0 <= k < |chunks| ==> embed(chunks[k]).Ok?
  }

  /** All embeddings that the service returns for these chunks share one length. */
  predicate SameDimension(chunks: seq<string>, embed: Embedder) {
    forall k, k' :: 0 <= k < |chunks| && 0 <= k' < |chunks| && embed(chunks[k]).Ok? && embed(chunks[k']).Ok? ==>
      |embed(chunks[k]).value| == |embed(chunks[k']).value|
  }

  /** The loop `for chunk in chunks: embeddings.append(get_embeddings(chunk))`: on success
      entry `k` is the embedding of chunk `k`; otherwise the error is that of the first
      chunk whose embedding fails, and no partial list is returned. */
  method CollectEmbeddings(chunks: seq<string>, embed: Embedder) returns (r: Result<seq<Embedding>, string>)
    ensures r.Ok? <==> AllEmbedded(chunks, embed)
    ensures r.Ok? ==> (|r.value| == |chunks| &&
              forall k :: 0 <= k < |chunks| ==> r.value[k] == embed(chunks[k]).value)
    ensures r.Err? ==>
              (exists k :: 0 <= k < |chunks| && embed(chunks[k]) == Err(r.error) &&
                forall k' :: 0 <= k' < k ==> embed(chunks[k']).Ok?)
  {
    var embeddings: seq<Embedding> := [];
    for j := 0 to |chunks|
      invariant |embeddings| == j
      invariant forall k :: 0 <= k < j ==> embed(chunks[k]).Ok? && embeddings[k] == embed(chunks[k]).value
    {
      var e := embed(chunks[j]);
      if e.Err? {
        return Err(e.error);
      }
      embeddings := embeddings + [e.value];
    }
    return Ok(embeddings);
  }

  /** `np.array(rows).astype('float32').shape[1]`: the common length of the rows; an
      empty list has no second axis, and rows of different lengths are refused. */
  function Dimension(rows: seq<Embedding>): (r: Result<nat, IndexError>)
    ensures r.Ok? <==> rows != [] && forall k, k' :: 0 <= k < |rows| && 0 <= k' < |rows| ==> |rows[k]| == |rows[k']|
    ensures r.Ok? ==> forall k :: 0 <= k < |rows| ==> |rows[k]| == r.value
    ensures rows == [] ==> r == Err(NoRows)
    ensures rows != [] && r.Err? ==> r == Err(RaggedRows)
  {
    if rows == [] then Err(NoRows)
    else if exists k :: 0 <= k < |rows| && |rows[k]| != |rows[0]| then Err(RaggedRows)
    else Ok(|rows[0]|)
  }

  /** `create_faiss_index(chunks)` up to the point where the matrix is handed to the
      library: it succeeds exactly when there is at least one chunk, every chunk is
      embedded and all embeddings share one length, and then row `k` is the embedding
      of chunk `k` and has the reported dimension. */
  method CreateIndex(chunks: seq<string>, embed: Embedder) returns (r: Result<IndexInput, IndexError>)
    ensures r.Ok? <==> chunks != [] && AllEmbedded(chunks, embed) && SameDimension(chunks, embed)
    ensures r.Ok? ==> (|r.value.rows| == |chunks| &&
              forall k :: 0 <= k < |chunks| ==>
                r.value.rows[k] == embed(chunks[k]).value && |r.value.rows[k]| == r.value.dimension)
    ensures r.Err? && r.error.GatewayFailure? ==>
              (exists k :: 0 <= k < |chunks| && embed(chunks[k]) == Err(r.error.message) &&
                forall k' :: 0 <= k' < k ==> embed(chunks[k']).Ok?)
    ensures r.Err? && !r.error.GatewayFailure? ==> AllEmbedded(chunks, embed)
    ensures chunks != [] && r.Err? && !r.error.GatewayFailure? ==> r == Err(RaggedRows)
    ensures chunks == [] ==> r == Err(NoRows)
  {
    var collected := CollectEmbeddings(chunks, embed);
    if collected.Err? {
      return Err(GatewayFailure(collected.error));
    }
    var rows := collected.value;
    var dimension := Dimension(rows);
    if dimension.Err? {
      return Err(dimension.error);
    }
    return Ok(IndexInput(dimension.value, rows));
  }
}
