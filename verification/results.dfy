/** Failure-carrying wrappers shared by every module of the model. */
module Results {

  /** An optional value; Python's `None` versus a present value. */
  datatype Option<+T> = None | Some(value: T)

  /** The exceptions the modelled code can raise, as values. */
  datatype Error =
    /** A class with no es class: `None.__score_db__` raises AttributeError. */
    | NoEsClass(cls: nat)
    /** A `__convert__` entry that is neither callable nor `None`. */
    | NotCallable(member: string)
    /** `getattr(object_, member)` on an object without that attribute. */
    | MissingAttribute(member: string)
    /** `body[key]` or `del body[key]` on a document without that key (KeyError). */
    | MissingKey(key: string)
    /** A search hit whose `_type` is not one of the requested doc types (KeyError). */
    | UnknownDocType(docType: string)
    /** An error reply from `es.index` or `es.delete` that the code does not catch. */
    | BackendFailure

  /** A value or the error that prevented computing it. */
  datatype Result<+T> = Ok(value: T) | Err(error: Error)
}
