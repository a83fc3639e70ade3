/** The calls the engine makes on the search backend, as request records,
    and the backend's possible answers. */
module Backend {
  import opened Values
  import opened Documents
  import opened Mapping

  /** How `query` passes the query: a string as `q=`, anything else as
      `body={'query': ...}`. */
  datatype QueryArg = Q(text: string) | Body(dsl: Value)

  datatype Request =
    /** `es.index(index=, doc_type=, body=, id=)`; `typeField` is the
        document's `_type` value passed as `doc_type`. */
    | IndexDoc(index: string, typeField: Value, body: Document, id: int)
    /** `es.delete(index=, doc_type=, id=)` */
    | DeleteDoc(index: string, docType: string, id: int)
    /** `es.search(index=, analyze_wildcard=, fields=, doc_type=, from_=, size=, q= or body=)` */
    | Search(index: string, analyzeWildcard: bool, fields: string, docType: string,
             from: int, size: int, query: QueryArg)
    /** `es.indices.delete(index=)` */
    | DeleteIndex(index: string)
    /** `es.indices.create(index=)` */
    | CreateIndex(index: string)
    /** `es.indices.put_mapping(index=, doc_type=, body={doc_type: mapping})` */
    | PutMapping(index: string, docType: string, mapping: TypeMapping)
    /** `helpers.bulk(es, bodies)` */
    | Bulk(bodies: seq<Document>)

  /** What the backend does with a request: accept it, raise NotFoundError,
      or raise any other error. */
  datatype Reply = Acked | NotFound | Failed
}
