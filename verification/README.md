# score.es — a Dafny model of the Elasticsearch glue

`score.es` keeps a search index in step with SQLAlchemy model classes. A class
becomes searchable by declaring `__score_es__`, a dictionary from member names
to field definitions. A definition holds mapping settings and an optional
`__convert__` callable. This project models the pure core of that module:

- **Root resolution.** `get_es_class` maps each class to its *top-most es
  class*: the highest indexable class on its parent chain. `classes()` lists
  the top-most es classes under the declarative base, in depth-first order,
  without descending below a hit. Both keep a cache.
- **Document compilation.** `_mkconverter` and `__mkmembergetter` turn an
  object into the JSON document that gets indexed. `_object2json` caches the
  compiled converter per class.
- **Requests.** `insert`, `delete`, `refresh` and `create` become request
  records. This includes the per-class mapping that `create` registers.
- **Change capture.** The `before_flush` listener picks the objects to index
  and to delete. The `after_flush` listener replays them.
- **Queries.** The multi-class `query` of `score/es/_init.py` routes hits to
  classes in maximal runs. The single-class `query` of `score/es/__init__.py`
  wraps the user's query in a class filter.

Both source files carry the same logic, apart from `query`. Rows of the table
below cite `score/es/_init.py` for the shared parts. They cite
`score/es/__init__.py` for its own `query`.

The class graph is explicit. A `Hierarchy` numbers the classes in definition
order, so a parent always has a smaller number than its subclasses. Each class
carries its type name, its parent and its own declaration, if any. Python
dictionaries are modelled by the `Dict` module: a sequence of key/value pairs
in insertion order, where re-assigning a key keeps its position. Network calls
are emitted as `Backend.Request` values. The backend's answers and the
database's rows enter as function parameters. The exceptions the model
carries are `Results.Error` values: a class without an es class, an unusable
converter, a missing attribute, a missing dictionary key, a hit of an unknown
doc type, and a backend reply other than success (or NotFoundError on a
delete). The exceptions listed under "Left out" are not modelled.

Where the prose documentation and the code differ, the model follows the code:

- `hasattr(cls, '__score_es__')` is also true for a class that only inherits a
  declaration. So every subclass of a declaring class is indexable, and
  `cls.__score_es__` is the nearest declaring ancestor's dictionary.
- `get_es_class` tests the parentless root only when the root is the starting
  class. If the base itself declares, its subclasses resolve to the class just
  below the base. `classes()`, and therefore `create`, still publishes the
  mapping under the base's type name.
- Suppose two classes on the chain walked by `_mkconverter` declare the same
  member. The getter from the class visited later, nearer the es class, wins.
  The member keeps the position where it was first assigned. The duplicate
  check looks only at the template keys, so a member named `_id` replaces the
  object id.
- In a mapping, the definition written last in the depth-first walk wins.
- `after_flush` stops at the first exception. It never clears the pending
  lists; `before_flush` resets them.
- The multi-class `query` calls `by_ids(None, [])` once when there are no hits.

## Model

| member | source | states |
|---|---|---|
| TypeRegistry.IndexableIffDeclaringAncestor | score/es/_init.py:290-295 | `hasattr(cls, '__score_es__')` holds exactly when the class or one of its ancestors declares `__score_es__` |
| TypeRegistry.ClimbHighest | score/es/_init.py:292-295 | the `while` loop ends on the highest indexable class of the chain below the parentless root; if there is none, it returns the value it started with |
| TypeRegistry.EsRoot | score/es/_init.py:288-297 | a class that has an es class resolves to an indexable class on its own parent chain |
| TypeRegistry.Climb | score/es/_init.py:292-295 | the `while` loop of `get_es_class`. TypeRegistry.ClimbHighest characterises it: it ends on the highest indexable non-root class of the chain, or on its start value when there is none |
| TypeRegistry.EsRootIsHighestCandidate | score/es/_init.py:275-297 | `get_es_class` is None exactly when no chain position is a candidate. Otherwise it returns the highest candidate. A candidate is an indexable class that is either the starting class or not the parentless root |
| TypeRegistry.GetEsClass | score/es/_init.py:284-297 | the cached lookup answers what the uncached walk computes. The cache stays sound and gains exactly the queried class. A cache hit leaves the cache unchanged |
| TypeRegistry.NoTopsBelow | score/es/_init.py:309-311 | the subclass tree below an indexable class contains no top-most es class, so returning at a hit loses nothing |
| TypeRegistry.CollectIsTops | score/es/_init.py:308-313 | the pruned depth-first `recurse` collects exactly the top-most es classes of the full subclass tree, in depth-first order |
| TypeRegistry.Collect | score/es/_init.py:308-313 | the pruned walk `recurse` returns only classes of the hierarchy. TypeRegistry.CollectIsTops characterises it as the top-most filter of the full depth-first walk |
| TypeRegistry.Classes | score/es/_init.py:299-315 | `classes()` returns only classes of the hierarchy. TypeRegistry.ClassesAreTopMost characterises it: a class is listed exactly when it is below the base, indexable and has no indexable parent |
| TypeRegistry.GetClasses | score/es/_init.py:304-315 | `classes()` returns the top-most es classes under the base, in depth-first order. It stores that list in its cache, and a second call returns the cached list unchanged |
| TypeRegistry.ClassesAreTopMost | score/es/_init.py:299-315 | a class is listed exactly when it lies below the base, is indexable, and has no indexable parent. No listed class has an indexable proper ancestor |
| TypeRegistry.EsRootBelowTop | score/es/_init.py:288-297 | every class in the subclass tree of a top-most es class resolves to that class. The parentless root is the exception: it resolves only to itself |
| TypeRegistry.TopInClasses | score/es/_init.py:308-314 | every indexable class below the base has one of the listed classes on its parent chain |
| Documents.ChainTo | score/es/_init.py:173-185 | the `_mkconverter` loop visits a prefix of the parent chain. It starts at the concrete class and stops at the es class, which appears only at its end |
| Documents.GetterForValue | score/es/_init.py:195-208 | a getter yields the raw attribute when there is no converter (or it is `None`). It yields `conv(value)` for a one-argument converter and `conv(value, object)` for a two-argument one |
| Documents.BuildGettersDistinct | score/es/_init.py:172-182 | the getter table holds each member at most once |
| Documents.BuildGettersKeep | score/es/_init.py:176-182 | a reserved template key, or a member never declared along the walk, keeps the getter it had before |
| Documents.BuildGettersLast | score/es/_init.py:176-182 | for every other member, the getter comes from the last declaration visited |
| Documents.GettersKeys | score/es/_init.py:176-182 | the getter table covers exactly the visited members that are not template keys |
| Documents.RunGettersOk | score/es/_init.py:190-191 | running the getters fails exactly when the object lacks one of the members |
| Documents.RunGettersGet | score/es/_init.py:187-192 | after running the getters, a member with a getter holds that getter's value. Every other key keeps its template value |
| Documents.Object2Json | score/es/_init.py:151-159 | the cached conversion returns the uncached document. The cache stays sound and gains the class exactly when its converter compiles. A hit leaves the cache unchanged |
| Documents.CacheExtend | score/es/_init.py:157-158 | recording a freshly compiled converter keeps the cache sound |
| Documents.Compile | score/es/_init.py:161-186 | `_mkconverter`: fails for a class with no es class or with an unusable converter. Documents.CompiledPlan characterises the plan it builds |
| Documents.ToDocument | score/es/_init.py:187-193 | the converter closure applied to an object. Documents.DocumentOk says when it succeeds, and Documents.DocumentTemplate, Documents.DocumentMember and Documents.DocumentKeys give the document |
| Documents.DocumentOk | score/es/_init.py:161-193 | an object gets a document exactly when three things hold. Its class has an es class. Every visited non-template member has a usable converter. The object has every such member as an attribute |
| Documents.CompiledPlan | score/es/_init.py:166-185 | the compiled template has keys `class`, `concrete_class` and `_type`, in that order. `class` lists the type names from the concrete class up to the es class. `concrete_class` is the object's type name and `_type` is the es class's type name. The getters are those of the visited members |
| Documents.RunKeeps | score/es/_init.py:187-192 | a key with no getter keeps the value from the template copy with `_id` added |
| Documents.RunTemplate | score/es/_init.py:187-192 | the template keys survive the getters unchanged, and `_id` is the object id unless a getter for `_id` exists |
| Documents.RunKeys | score/es/_init.py:187-192 | the document's keys are exactly the template keys, `_id`, and the members that have getters |
| Documents.DocumentTemplate | score/es/_init.py:166-189 | a document carries `class` = the type names from the concrete class up to the es class, `concrete_class` = the concrete type name, and `_type` = the es class's type name. Unless a member named `_id` is declared, `_id` is the object id |
| Documents.DocumentMember | score/es/_init.py:176-191 | a visited non-template member is an attribute of the object. Its value in the document is the attribute, converted as its last visited definition says |
| Documents.DocumentKeys | score/es/_init.py:166-192 | a document has no keys besides the template keys, `_id` and the visited members, and it has all of those. It holds each key once |
| Documents.RunGettersDistinct | score/es/_init.py:190-191 | assigning the getters' values into a document whose keys are distinct keeps them distinct |
| Documents.RunDistinct | score/es/_init.py:187-192 | from a template with the three distinct keys, the finished document holds each key once |
| Documents.DocumentDistinct | score/es/_init.py:166-192 | a document built for an object holds each key once, as the Python dict it models does |
| Mapping.Stripped | score/es/_init.py:360-362 | every copied definition keeps its member name and loses `__convert__`. All its other settings are unchanged |
| Mapping.Properties | score/es/_init.py:353-372 | the properties of a mapping keep each key once, and `class` and `concrete_class` are forced to not-analysed strings. Mapping.MappingKeys and Mapping.MappingLastWins give the other keys |
| Mapping.MappingFor | score/es/_init.py:352-372 | a mapping disables `_source` and forces `class` and `concrete_class` to not-analysed strings |
| Mapping.MappingLastWins | score/es/_init.py:358-366 | any other member's property is the definition last visited in the depth-first walk, without `__convert__` |
| Mapping.MappingKeys | score/es/_init.py:358-372 | the mapping's properties are exactly `class`, `concrete_class` and the members declared anywhere in the subclass tree |
| Mapping.MappingHasNoConverter | score/es/_init.py:361-372 | no property of a mapping carries `__convert__` |
| Mapping.MappingCoversSubtree | score/es/_init.py:358-366 | every member an indexable class in the subclass tree exposes is a property of the mapping |
| Indexing.IndexRequest | score/es/_init.py:142-149 | the request is built exactly when the document has `_type` and `_id`, and otherwise fails on the first one missing. It goes to the given index with the object's id, uses the document's `_type` as doc type, and sends the document minus `_id` and `_type` as body |
| Indexing.Insert | score/es/_init.py:137-149 | an index request is only sent for an object that has a document |
| Indexing.InsertShape | score/es/_init.py:141-149 | an object with a document is always indexed. The request is to the configured index, with the object's id and the es class's type name as doc type. The body is the document minus `_id` and `_type` |
| Indexing.DeleteRequest | score/es/_init.py:210-219 | a delete is sent exactly when the class has an es class, under that class's type name and the object's id |
| Indexing.DeleteOutcome | score/es/_init.py:215-221 | a delete fails only on an error other than NotFoundError |
| Indexing.DeleteAddressesInserted | score/es/_init.py:210-219 | delete undoes insert: whenever an object can be indexed, it can also be deleted, and the delete names the same index, doc type and id as the index request |
| Indexing.DeleteTwice | score/es/_init.py:210-221 | deleting a document that is already gone still succeeds |
| Indexing.BodiesOk | score/es/_init.py:322-330 | the bulk bodies can be built exactly when every visited object has a document |
| Indexing.BodiesAreDocuments | score/es/_init.py:327-330 | each bulk body is its object's document with `_index` set to the index name |
| Indexing.Refresh | score/es/_init.py:317-332 | `refresh` sends a single bulk request |
| Indexing.RefreshSpec | score/es/_init.py:322-332 | `refresh` succeeds exactly when every object of every top-most es class has a document. It then sends each of them, in order, tagged with the index name |
| Indexing.PutMappings | score/es/_init.py:352-376 | `create` sends one `put_mapping` per top-most es class, in the order of `classes()`, under its type name and with its mapping |
| Indexing.Create | score/es/_init.py:340-376 | `create` deletes the index exactly when asked to. It then creates the index and registers every mapping |
| Indexing.CreateCoversEveryMember | score/es/_init.py:352-366 | every member exposed by an indexable class below the base is a property of the mapping registered for a top-most es class whose subtree contains that class |
| Changes.ModifiedKnown | score/es/_init.py:101-105 | a dirty object is kept exactly when `is_modified` reports it |
| Changes.SelectLoop | score/es/_init.py:96-112 | the loop appends, in order, exactly the objects that pass the `instances` and es-class tests |
| Changes.DirtyLoop | score/es/_init.py:101-108 | the dirty loop skips unmodified objects before applying the same tests |
| Changes.BeforeFlush | score/es/_init.py:85-112 | `before_flush` discards what was pending before. It captures new objects, then modified dirty objects, to insert, and deleted objects to delete |
| Changes.Capture | score/es/_init.py:94-112 | the three capture loops of `before_flush`. Changes.CaptureMembers characterises which objects each list holds |
| Changes.SelectMembers | score/es/_init.py:96-112 | an object is selected exactly when it occurs in the list, is among `instances` (when that is non-empty), and has an es class |
| Changes.CaptureMembers | score/es/_init.py:85-112 | an object is to be inserted exactly when it is new, or dirty and modified, and passes the tests. It is to be deleted exactly when it is deleted and passes them |
| Changes.Ops | score/es/_init.py:115-119 | `after_flush` performs every insert, in order, and then every delete |
| Changes.RequestFor | score/es/_init.py:116-119 | an insert step sends an index request and a delete step sends a delete request |
| Changes.Replay | score/es/_init.py:115-119 | the requests are sent in order until the first one that fails. Changes.ReplaySpec and Changes.ReplayStops characterise it |
| Changes.AfterFlush | score/es/_init.py:115-119 | `after_flush` replays the inserts, then the deletes. Changes.Ops, Changes.ReplaySpec and Changes.InsertsBeforeDeletes characterise it |
| Changes.ReplaySpec | score/es/_init.py:115-119 | the requests sent are those of a prefix of the steps, in order. The replay succeeds exactly when every step does, and then every request was sent |
| Changes.ReplayStops | score/es/_init.py:115-119 | a failed replay stops at its first failing step. Every earlier step completed |
| Changes.InsertsBeforeDeletes | score/es/_init.py:115-119 | no index request is sent after a delete request |
| Search.SplitJoin | score/es/_init.py:253 | joining comma-free doc types with commas can be undone by splitting, so the search names each doc type |
| Search.Roots | score/es/_init.py:245-246 | each requested class is paired with its es class |
| Search.CollectOk | score/es/_init.py:245-248 | collecting doc types succeeds exactly when every requested class has an es class. Otherwise it fails naming a class that has none |
| Search.DocTypesOk | score/es/_init.py:243-248 | the doc types can be computed exactly when every requested class has an es class. The error names a class without one |
| Search.DocTypesNames | score/es/_init.py:245-248 | the i-th doc type is the type name of the i-th class's es class |
| Search.DocTypesMap | score/es/_init.py:244-248 | the doc-type table has exactly the requested doc types as keys. A doc type shared by several classes maps to the last of them |
| Search.SearchRequest | score/es/_init.py:249-260 | the search request carries the index, `analyze_wildcard`, `fields='_id'`, `from_`=offset and `size`=limit. A string query is passed as `q`, any other query as `body={'query': q}` |
| Search.SearchDocTypes | score/es/_init.py:249-256 | the request's `doc_type` splits back into the requested doc types |
| Search.Classify | score/es/_init.py:265-266 | routing the hits succeeds exactly when every hit's doc type was requested. Otherwise it fails on an unknown doc type |
| Search.FeedSpec | score/es/_init.py:266-272 | each hit either extends the open run or closes it and opens a run of a new class. The runs stay maximal and the hit is taken in exactly once |
| Search.Group | score/es/_init.py:263-273 | the runs are non-empty and adjacent runs have different classes. Concatenated, they give back the labelled hits in order. With no hits, the result is one empty fetch for None |
| Search.Partition | score/es/_init.py:263-273 | the hits are routed into maximal same-class runs whose concatenation is the hit list in backend order. An unknown doc type fails |
| Search.YieldedFollowsExpand | score/es/_init.py:265-273 | with a session whose `by_ids` returns one object per id, in id order, the objects yielded follow the runs' (class, id) pairs one to one |
| Search.RunsUnique | score/es/_init.py:263-273 | the maximal same-class runs of a list of (class, id) pairs are unique, so the `by_ids` calls `query` makes are determined by the hits |
| Search.RoutedYieldsOnePerHit | score/es/_init.py:263-273 | with a session that finds every id, the objects yielded are one per hit, in hit order, each looked up in the class its doc type names. With no hits they are what `by_ids(None, [])` returns |
| Search.QueryMany | score/es/_init.py:239-273 | a search is sent exactly when every class has an es class. On success every hit's doc type was requested. The `by_ids` calls are the maximal same-class runs of the hits in hit order, or one call for None with no ids when there are no hits. The objects yielded are the calls' answers, one call after another. A failure after the search comes from an unknown doc type |
| Search.Wrap | score/es/__init__.py:243-245 | builds `((q) AND class:T)`. Search.WrapUnwrap shows it can be undone exactly |
| Search.Filtered | score/es/__init__.py:246-254 | builds the `filtered` query with a `term` filter on `class`. Search.FilteredUnfilter shows it can be undone exactly |
| Search.WrapUnwrap | score/es/__init__.py:243-245 | the wrapped string query is exactly `((q) AND class:T)`: unwrapping recovers q, and only wrapped strings unwrap |
| Search.FilteredUnfilter | score/es/__init__.py:246-254 | the structured query is exactly a `filtered` query with a `term` filter on `class`: reading it back recovers the query and the class |
| Search.LegacySearchRequest | score/es/__init__.py:234-254 | the single-class search is sent exactly when the class has an es class, with the es class's type name as doc type. The query is wrapped in a filter on the requested class's own type name |
| Search.LegacyQuery | score/es/__init__.py:234-257 | the single-class search is sent exactly when the class has an es class, and otherwise the query fails with no es class. It makes one `by_ids` call, for the requested class, with the hit ids in hit order, and yields that call's answer |
| Search.ClassFilterMatches | score/es/__init__.py:244-251 | an object indexed under the es class matches the class filter of any class on its chain, because its document's `class` list holds that class's type name |

## Left out

- Configuration parsing, client construction and listener registration (`init`, `parse_list`, `parse_bool`, `event.listens_for`) and `CtxProxy`: these are configuration and framework wiring.
- The network calls. `es.index`, `es.delete`, `es.search`, `indices.*` and `helpers.bulk` become request records. Their replies are parameters.
- `destroy` and `create`: the `ignore=404` and `ignore=400` codes are left out. Every request `create` issues appears in order, whatever the backend answers.
- `refresh`: timing, logging and `yield_per(100)` batching are left out. `session.query(cls)` is the `rows` parameter.
- Errors raised partway through a generator (`refresh`, `query`): the objects already yielded before the error are not modelled. A failing call returns only the error.
- `session.by_ids` and `session.is_modified` are the `byIds` and `isModified` parameters. The database is not modelled. `byIds` answers a whole call: whatever objects the session returns for a class and a list of ids, in its own order. This includes objects missing for ids of another class, which a doc type shared by several requested classes can cause, and the call for None with no ids.
- Search.YieldedFollowsExpand, Search.RoutedYieldsOnePerHit: "one object per hit" holds only for a session that finds every id (`FindsEveryId`), because `by_ids` itself promises nothing more.
- `int(hit['_id'])`: hit ids are integers from the start, so a non-numeric id is not modelled.
- The `isinstance(class_, type)` test of the multi-class `query`: a single class is passed as a one-element list.
- `inspect.getargspec`: a converter carries a tag for how many arguments it takes. The tag has only the two cases the code distinguishes. A converter that Python calls with one argument but that cannot take one is not modelled.
- The legacy `delete` and `insert` of `score/es/__init__.py` share the model of `score/es/_init.py`.
- Exceptions from the backend calls the model treats as total. These are `es.search` in `query`, `helpers.bulk` in `refresh`, and `indices.create`, `indices.put_mapping` and `indices.delete` in `create` and `destroy` on codes outside their ignore lists. The model returns their requests or results without an error path.
- Exceptions raised inside a user's `__convert__` callable: a converter is a total function from values to values.
- Exceptions raised by `session.by_ids` in `query`: `byIds` is a total function.
- Object identity: `object_ in instances` tests identity in Python, while an `Obj` is compared by value. An `Obj` stands for one mapped instance. It carries the id the instance has after the flush, even where `before_flush` sees it.
- The process-global pending lists and the thread safety of the caches.
- Documents.GetterForValue, Indexing.DeleteTwice: these follow from their definitions directly. They are stated for the reader and carry no proof of their own.
- Indexing.Refresh: its own contract says only that the request is a bulk request. Indexing.RefreshSpec states the contents.
- Indexing.Insert: its own contract is weaker than the source's promise. Indexing.InsertShape states the full request.
