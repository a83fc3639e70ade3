/** The requests of `insert`, `delete`, `refresh` and `create`
    (score/es/_init.py). */
module Indexing {
  import opened Results
  import opened Dict
  import opened Values
  import opened TypeRegistry
  import opened Documents
  import opened Mapping
  import opened Backend

  /** The tail of `insert`: `doc_type = body['_type']`, then `_id` and
      `_type` are deleted from the body. */
  function IndexRequest(index: string, o: Obj, doc: Document): (r: Result<Request>)
    ensures r.Ok? <==> "_type" in Keys(doc) && "_id" in Keys(doc)
    ensures r.Err? ==> r.error == MissingKey(if "_type" in Keys(doc) then "_id" else "_type")
    ensures r.Ok? ==>
      && r.value.IndexDoc? && r.value.index == index && r.value.id == o.id
      && Some(r.value.typeField) == Get(doc, "_type")
      && Get(r.value.body, "_id") == None && Get(r.value.body, "_type") == None
      && forall m | m != "_id" && m != "_type" :: Get(r.value.body, m) == Get(doc, m)
  {
    match Get(doc, "_type")
    case None => Err(MissingKey("_type"))
    case Some(t) =>
      if "_id" !in Keys(doc) then Err(MissingKey("_id"))
      else Ok(IndexDoc(index, t, Remove(Remove(doc, "_id"), "_type"), o.id))
  }

  /** `insert(object_)`: the object's document, then the index request.
      The converter cache is left implicit here: `Object2Json` returns what
      `ToDocument` computes. */
  function Insert(h: Hierarchy, index: string, o: Obj): (r: Result<Request>)
    requires Valid(h) && Has(h, o.cls)
    ensures r.Ok? ==> ToDocument(h, o).Ok? && r.value.IndexDoc?
  {
    var doc := ToDocument(h, o);
    if doc.Err? then Err(doc.error) else IndexRequest(index, o, doc.value)
  }

  /** An object with a document is always indexed: under its es class's type
      name, with its id, and with the document minus `_id` and `_type` as
      body. */
  lemma InsertShape(h: Hierarchy, index: string, o: Obj, e: ClassId)
    requires Valid(h) && Has(h, o.cls)
    requires EsRoot(h, o.cls) == Some(e) && ToDocument(h, o).Ok?
    ensures var r := Insert(h, index, o); var doc := ToDocument(h, o).value;
      && r.Ok? && r.value.IndexDoc?
      && r.value.index == index && r.value.id == o.id
      && r.value.typeField == Str(TypeName(h, e))
      && Get(r.value.body, "_id") == None && Get(r.value.body, "_type") == None
      && forall m | m != "_id" && m != "_type" :: Get(r.value.body, m) == Get(doc, m)
  {
    var doc := ToDocument(h, o).value;
    DocumentTemplate(h, o, e, doc);
    DocumentKeys(h, o, e, doc, "_id");
  }

  /** `delete(object_)` as sent: the es class's type name and the id; an
      object without an es class fails on `None.__score_db__`. */
  function DeleteRequest(h: Hierarchy, index: string, o: Obj): (r: Result<Request>)
    requires Valid(h) && Has(h, o.cls)
    ensures r.Ok? <==> EsRoot(h, o.cls).Some?
    ensures r.Ok? ==> r.value == DeleteDoc(index, TypeName(h, EsRoot(h, o.cls).value), o.id)
  {
    match EsRoot(h, o.cls)
    case None => Err(NoEsClass(o.cls))
    case Some(e) => Ok(DeleteDoc(index, TypeName(h, e), o.id))
  }

  /** How `delete` ends once the request is answered: NotFoundError is
      swallowed, any other error propagates. */
  function DeleteOutcome(reply: Reply): (r: Result<()>)
    ensures r.Ok? <==> reply != Failed
  {
    match reply
    case Acked => Ok(())
    case NotFound => Ok(())
    case Failed => Err(BackendFailure)
  }

  /** Delete undoes insert: whenever `insert` builds a request for an
      object, `delete` builds one too, and both name the same document (the
      same index, type and id). */
  lemma DeleteAddressesInserted(h: Hierarchy, index: string, o: Obj)
    requires Valid(h) && Has(h, o.cls) && Insert(h, index, o).Ok?
    ensures var ins := Insert(h, index, o).value; var del := DeleteRequest(h, index, o);
      && del.Ok? && del.value.index == ins.index && del.value.id == ins.id
      && Str(del.value.docType) == ins.typeField
  {
    assert ToDocument(h, o).Ok?;
    assert EsRoot(h, o.cls).Some?;
    var e := EsRoot(h, o.cls).value;
    InsertShape(h, index, o, e);
  }

  /** Deleting twice never raises: whether the first delete removed the
      document or it was already gone, the second one finds nothing and
      returns quietly. */
  lemma DeleteTwice(h: Hierarchy, index: string, o: Obj, first: Reply)
    requires Valid(h) && Has(h, o.cls) && EsRoot(h, o.cls).Some? && first != Failed
    ensures DeleteRequest(h, index, o).Ok?
    ensures DeleteOutcome(first).Ok? && DeleteOutcome(NotFound).Ok?
  {
  }

  /** `self._object2json(obj)` for each object, in order. */
  function Converted(h: Hierarchy, objs: seq<Obj>): (docs: seq<Result<Document>>)
    requires Valid(h) && forall i | 0 <= i < |objs| :: Has(h, objs[i].cls)
    ensures |docs| == |objs| && forall i | 0 <= i < |objs| :: docs[i] == ToDocument(h, objs[i])
  {
    seq(|objs|, i requires 0 <= i < |objs| => ToDocument(h, objs[i]))
  }

  /** The generator of `refresh` over the conversions: each document with
      `_index` added, in order; the first failing conversion ends the bulk
      call. */
  function Tagged(index: string, docs: seq<Result<Document>>): (r: Result<seq<Document>>)
    ensures r.Ok? ==> |r.value| == |docs|
    decreases |docs|
  {
    if |docs| == 0 then Ok([])
    else if docs[0].Err? then Err(docs[0].error)
    else
      var rest := Tagged(index, docs[1..]);
      if rest.Err? then rest
      else Ok([Put(docs[0].value, "_index", Str(index))] + rest.value)
  }

  /** The bodies `refresh` hands to the bulk helper. */
  function Bodies(h: Hierarchy, index: string, objs: seq<Obj>): (r: Result<seq<Document>>)
    requires Valid(h) && forall i | 0 <= i < |objs| :: Has(h, objs[i].cls)
    ensures r.Ok? ==> |r.value| == |objs|
  {
    Tagged(index, Converted(h, objs))
  }

  lemma {:induction false} TaggedOk(index: string, docs: seq<Result<Document>>)
    ensures Tagged(index, docs).Ok? <==> forall i | 0 <= i < |docs| :: docs[i].Ok?
    decreases |docs|
  {
    if |docs| > 0 {
      TaggedOk(index, docs[1..]);
      assert forall i | 1 <= i < |docs| :: docs[1..][i - 1] == docs[i];
    }
  }

  /** A successful tagging starts with the first document, tagged. */
  lemma TaggedCons(index: string, docs: seq<Result<Document>>)
    requires Tagged(index, docs).Ok? && |docs| > 0
    ensures docs[0].Ok? && Tagged(index, docs[1..]).Ok?
    ensures Tagged(index, docs).value[0] == Put(docs[0].value, "_index", Str(index))
    ensures Tagged(index, docs).value[1..] == Tagged(index, docs[1..]).value
  {
  }

  lemma {:induction false} TaggedAt(index: string, docs: seq<Result<Document>>, i: int)
    requires Tagged(index, docs).Ok? && 0 <= i < |docs|
    ensures docs[i].Ok? && Tagged(index, docs).value[i] == Put(docs[i].value, "_index", Str(index))
    decreases |docs|
  {
    TaggedCons(index, docs);
    if i > 0 {
      assert docs[1..][i - 1] == docs[i];
      TaggedAt(index, docs[1..], i - 1);
      assert Tagged(index, docs).value[i] == Tagged(index, docs).value[1..][i - 1];
    }
  }

  /** The bulk call happens exactly when every object converts. */
  lemma BodiesOk(h: Hierarchy, index: string, objs: seq<Obj>)
    requires Valid(h) && forall i | 0 <= i < |objs| :: Has(h, objs[i].cls)
    ensures Bodies(h, index, objs).Ok? <==> forall i | 0 <= i < |objs| :: ToDocument(h, objs[i]).Ok?
  {
    TaggedOk(index, Converted(h, objs));
  }

  /** The bulk bodies are the objects' documents, in order, each tagged
      with the index. */
  lemma BodiesAreDocuments(h: Hierarchy, index: string, objs: seq<Obj>, i: int, doc: Document)
    requires Valid(h) && forall k | 0 <= k < |objs| :: Has(h, objs[k].cls)
    requires Bodies(h, index, objs).Ok? && 0 <= i < |objs| && ToDocument(h, objs[i]) == Ok(doc)
    ensures Bodies(h, index, objs).value[i] == Put(doc, "_index", Str(index))
  {
    TaggedAt(index, Converted(h, objs), i);
  }

  /** The objects `refresh` visits: `session.query(cls)` for each class of
      `classes()`, in order. */
  function RefreshObjects(cs: seq<ClassId>, rows: ClassId -> seq<Obj>): seq<Obj> {
    if |cs| == 0 then [] else rows(cs[0]) + RefreshObjects(cs[1..], rows)
  }

  /** `refresh()`: one bulk request over every object of every top-most
      es class. */
  function Refresh(h: Hierarchy, index: string, rows: ClassId -> seq<Obj>): (r: Result<Request>)
    requires Valid(h)
    requires forall c, i | 0 <= i < |rows(c)| :: Has(h, rows(c)[i].cls)
    ensures r.Ok? ==> r.value.Bulk?
  {
    var objs := RefreshObjects(Classes(h), rows);
    RefreshObjectsHave(h, Classes(h), rows);
    var bodies := Bodies(h, index, objs);
    if bodies.Err? then Err(bodies.error) else Ok(Bulk(bodies.value))
  }

  lemma {:induction false} RefreshObjectsHave(h: Hierarchy, cs: seq<ClassId>, rows: ClassId -> seq<Obj>)
    requires Valid(h) && forall c, i | 0 <= i < |rows(c)| :: Has(h, rows(c)[i].cls)
    ensures forall i | 0 <= i < |RefreshObjects(cs, rows)| :: Has(h, RefreshObjects(cs, rows)[i].cls)
    decreases |cs|
  {
    if |cs| > 0 {
      RefreshObjectsHave(h, cs[1..], rows);
      var s := RefreshObjects(cs, rows);
      forall i | 0 <= i < |s| ensures Has(h, s[i].cls) {
        if i >= |rows(cs[0])| {
          assert s[i] == RefreshObjects(cs[1..], rows)[i - |rows(cs[0])|];
        }
      }
    }
  }

  /** `refresh` succeeds exactly when every object of every top-most es
      class has a document, and then sends each document tagged with the
      index name, in the order the objects are visited. */
  lemma RefreshSpec(h: Hierarchy, index: string, rows: ClassId -> seq<Obj>)
    requires Valid(h) && forall c, i | 0 <= i < |rows(c)| :: Has(h, rows(c)[i].cls)
    ensures var objs := RefreshObjects(Classes(h), rows);
      forall k | 0 <= k < |objs| :: Has(h, objs[k].cls)
    ensures var objs := RefreshObjects(Classes(h), rows);
      Refresh(h, index, rows).Ok? <==> forall k | 0 <= k < |objs| :: ToDocument(h, objs[k]).Ok?
    ensures var objs := RefreshObjects(Classes(h), rows); var r := Refresh(h, index, rows);
      r.Ok? ==>
        && |r.value.bodies| == |objs|
        && forall k | 0 <= k < |objs| :: r.value.bodies[k] == Put(ToDocument(h, objs[k]).value, "_index", Str(index))
  {
    var objs := RefreshObjects(Classes(h), rows);
    RefreshObjectsHave(h, Classes(h), rows);
    BodiesOk(h, index, objs);
    var bodies := Bodies(h, index, objs);
    assert Refresh(h, index, rows) == if bodies.Err? then Err(bodies.error) else Ok(Bulk(bodies.value));
    if Refresh(h, index, rows).Ok? {
      forall k | 0 <= k < |objs|
        ensures Refresh(h, index, rows).value.bodies[k] == Put(ToDocument(h, objs[k]).value, "_index", Str(index))
      {
        BodiesAreDocuments(h, index, objs, k, ToDocument(h, objs[k]).value);
      }
    }
  }

  /** The `put_mapping` calls of `create`: one per top-most es class, under
      its type name and in the order of `classes()`. */
  function PutMappings(h: Hierarchy, index: string): (rs: seq<Request>)
    requires Valid(h)
    ensures |rs| == |Classes(h)|
    ensures forall i | 0 <= i < |rs| ::
      rs[i] == PutMapping(index, TypeName(h, Classes(h)[i]), MappingFor(h, Classes(h)[i]))
  {
    var cs := Classes(h);
    seq(|cs|, i requires 0 <= i < |cs| => PutMapping(index, TypeName(h, cs[i]), MappingFor(h, cs[i])))
  }

  /** `create(destroy)`: drop the index when asked, create it, then register
      the mappings. */
  function Create(h: Hierarchy, index: string, destroy: bool): (r: seq<Request>)
    requires Valid(h)
    ensures var off := if destroy then 1 else 0;
      && |r| == off + 1 + |Classes(h)|
      && (destroy <==> r[0].DeleteIndex?)
      && r[off] == CreateIndex(index)
      && r[off + 1..] == PutMappings(h, index)
  {
    var head := if destroy then [DeleteIndex(index), CreateIndex(index)] else [CreateIndex(index)];
    assert (head + PutMappings(h, index))[|head|..] == PutMappings(h, index);
    head + PutMappings(h, index)
  }

  /** Every member that any indexable class below the base exposes is a
      property of the mapping `create` registers for its top-most es class. */
  lemma CreateCoversEveryMember(h: Hierarchy, x: ClassId, m: string)
    requires Valid(h) && Has(h, x) && h.base in Ancestors(h, x) && Indexable(h, x)
    requires m in Keys(EffectiveDecl(h, x).value)
    ensures exists i | 0 <= i < |Classes(h)| ::
      x in Subtree(h, Classes(h)[i]) && m in Keys(MappingFor(h, Classes(h)[i]).properties)
  {
    TopInClasses(h, x);
    var t :| t in Classes(h) && t in Ancestors(h, x);
    AncestorInSubtree(h, t, x);
    MappingCoversSubtree(h, t, x, m);
    var i :| 0 <= i < |Classes(h)| && Classes(h)[i] == t;
  }
}
