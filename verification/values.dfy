/** The data the engine moves around: JSON-like values and database objects. */
module Values {
  import opened Dict

  /** A JSON value as sent to or received from the search backend. */
  datatype Value =
    | Null
    | Bool(b: bool)
    | Int(i: int)
    | Str(s: string)
    | List(items: seq<Value>)
    | Object(fields: Dict<Value>)

  /** A database object: its concrete class, its primary key `id` and its
      readable attributes (what `getattr` can see). */
  datatype Obj = Obj(cls: nat, id: int, attrs: map<string, Value>)
}
