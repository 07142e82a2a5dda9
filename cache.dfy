/**
 * The embedding cache: `get_embeddings`, `load_embeddings` and
 * `save_embeddings` in RAG.py. The `embeddings/` directory is a map from a
 * document's file name to the list of vectors stored for it, and the
 * embedding service is a function from (model name, prompt) to a vector.
 */
module EmbeddingCache {
  import opened Text
  import opened Options

  /** An embedding vector; its floating-point entries are never inspected by the cache. */
  type Vector = seq<real>

  /** The embedding requests issued for `chunks`, one per chunk and in chunk order. */
  function Requests(model: String, chunks: seq<String>): (issued: seq<(String, String)>)
    ensures |issued| == |chunks|
    ensures forall i :: 0 <= i < |chunks| ==> issued[i].0 == model && issued[i].1 == chunks[i]
  {
    if chunks == [] then [] else Requests(model, chunks[..|chunks| - 1]) + [(model, chunks[|chunks| - 1])]
  }

  class Store {
    /** The `embeddings/` directory: one record per file name. */
    var records: map<String, seq<Vector>>
    /** The embedding service: `ollama.embeddings(model=..., prompt=...)["embedding"]`. */
    const embed: (String, String) -> Vector
    /** Every (model, prompt) request sent to the embedding service so far, in the order sent. */
    ghost var requests: seq<(String, String)>

    constructor (embed: (String, String) -> Vector, records: map<String, seq<Vector>>)
      ensures this.embed == embed && this.records == records && requests == []
    {
      this.embed := embed;
      this.records := records;
      requests := [];
    }

    /**
     * `load_embeddings`: the stored list when a record for `filename` exists
     * (whatever it holds, even an empty list), and None, Python's `False`, when
     * it does not.
     */
    method Load(filename: String) returns (loaded: Option<seq<Vector>>)
      ensures loaded.Some? <==> filename in records
      ensures loaded.Some? ==> loaded.value == records[filename]
    {
      if filename in records {
        loaded := Some(records[filename]);
      } else {
        loaded := None;
      }
    }

    /** `save_embeddings`: writes (or overwrites) the record for `filename`; no other record changes. */
    method Save(filename: String, embeddings: seq<Vector>)
      modifies this`records
      ensures records == old(records)[filename := embeddings]
    {
      records := records[filename := embeddings];
    }

    /**
     * `get_embeddings`: on a hit the stored list comes back verbatim, whatever
     * `chunks` and `modelname` are, with no request and no write; on a miss
     * every chunk is embedded, in order, and the list is stored under
     * `filename` before it is returned. Either way the store then maps
     * `filename` to the result.
     */
    method GetEmbeddings(filename: String, modelname: String, chunks: seq<String>)
      returns (embeddings: seq<Vector>)
      modifies this`records, this`requests
      ensures filename in old(records) ==>
                && embeddings == old(records)[filename]
                && records == old(records)
                && requests == old(requests)
      ensures filename !in old(records) ==>
                && |embeddings| == |chunks|
                && (forall i :: 0 <= i < |chunks| ==> embeddings[i] == embed(modelname, chunks[i]))
                && records == old(records)[filename := embeddings]
                && requests == old(requests) + Requests(modelname, chunks)
      ensures filename in records && records[filename] == embeddings
    {
      var loaded := Load(filename);
      if loaded.Some? {
        return loaded.value;
      }
      embeddings := [];
      for i := 0 to |chunks|
        invariant |embeddings| == i
        invariant forall j :: 0 <= j < i ==> embeddings[j] == embed(modelname, chunks[j])
        invariant requests == old(requests) + Requests(modelname, chunks[..i])
        invariant records == old(records)
      {
        var vector := embed(modelname, chunks[i]);
        requests := requests + [(modelname, chunks[i])];
        embeddings := embeddings + [vector];
        assert chunks[..i + 1][..i] == chunks[..i];
      }
      assert chunks[..|chunks|] == chunks;
      Save(filename, embeddings);
    }

    /**
     * Two calls for the same file name: the second is a hit that returns what
     * the first returned, even for other chunks or another model, and only the
     * first can have sent requests to the embedding service.
     */
    method GetEmbeddingsTwice(filename: String, modelname: String, chunks: seq<String>,
                              otherModel: String, otherChunks: seq<String>)
      returns (first: seq<Vector>, second: seq<Vector>)
      modifies this`records, this`requests
      ensures second == first
      ensures filename in old(records) ==> first == old(records)[filename] && requests == old(requests)
      ensures filename !in old(records) ==> requests == old(requests) + Requests(modelname, chunks)
      ensures records == old(records)[filename := first]
    {
      first := GetEmbeddings(filename, modelname, chunks);
      second := GetEmbeddings(filename, otherModel, otherChunks);
    }
  }
}
