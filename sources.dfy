/**
 * A retrieved source node as the query engine hands it back: the passage's
 * metadata, its optional relevance score and its text.
 */
module Sources {
  import opened Wrappers

  /** Metadata key of the document's file name. */
  const FileNameKey := "file_name"
  /** Metadata key of the page number. */
  const PageNoKey := "page_no"

  /**
   * `metadata` maps each key to the text its value is shown as; `score` is
   * `None` when the retriever assigned no score.
   */
  datatype SourceNode = SourceNode(metadata: map<string, string>, score: Option<real>, content: string)

  /** Python's `meta.get(key, default)`. */
  function MetaGet(meta: map<string, string>, key: string, default: string): (v: string)
    ensures key in meta ==> v == meta[key]
    ensures key !in meta ==> v == default
  {
    if key in meta then meta[key] else default
  }
}
