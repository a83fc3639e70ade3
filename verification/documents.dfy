/** Compilation of a class into a document plan and its application to an
    object (`_mkconverter`, `__mkmembergetter`, `_object2json` in
    score/es/_init.py). */
module Documents {
  import opened Results
  import opened Dict
  import opened Values
  import opened TypeRegistry

  /** The JSON body built for one object. */
  type Document = Dict<Value>

  /** A compiled member getter: the raw attribute, or the attribute passed
      through a one- or two-argument converter. */
  datatype Getter =
    | Raw
    | Unary(f: Value -> Value)
    | Binary(g: (Value, Obj) -> Value)

  /** What `_mkconverter` returns: the static template `bodytpl` and the
      getters, keyed by member in first-assignment order. */
  datatype Plan = Plan(template: Document, getters: Dict<Getter>)

  /** The keys of the template, which declared members may not override. */
  predicate Reserved(m: string) {
    m == "class" || m == "concrete_class" || m == "_type"
  }

  /** `__mkmembergetter(member, converter)`, with `converter` read from the
      definition's `'__convert__'` entry (absent or `None` meaning none). */
  function GetterFor(member: string, def: Definition): Result<Getter> {
    var c: Option<Setting> := Get(def, "__convert__");
    match c
    case None => Ok(Raw)
    case Some(Plain(v)) => if v.Null? then Ok(Raw) else Err(NotCallable(member))
    case Some(Convert(ValueOnly(f))) => Ok(Unary(f))
    case Some(Convert(ValueAndObject(g))) => Ok(Binary(g))
  }

  function Apply(g: Getter, raw: Value, o: Obj): Value {
    match g
    case Raw => raw
    case Unary(f) => f(raw)
    case Binary(f) => f(raw, o)
  }

  /** The value `__mkmembergetter` yields for a member: the attribute itself
      without a converter, else the converter applied to the attribute, and
      to the object too when the converter takes two arguments. */
  ghost function MemberValue(def: Definition, raw: Value, o: Obj): Value {
    var c: Option<Setting> := Get(def, "__convert__");
    if c.Some? && c.value.Convert? then
      match c.value.conv
      case ValueOnly(f) => f(raw)
      case ValueAndObject(g) => g(raw, o)
    else raw
  }

  /** The loop of `_mkconverter` from `cls` up to its es class `e`, both
      included: the classes whose type names make up `class`. */
  function ChainTo(h: Hierarchy, c: ClassId, e: ClassId): (chain: seq<ClassId>)
    requires Valid(h) && Has(h, c) && e in Ancestors(h, c)
    ensures 1 <= |chain| <= |Ancestors(h, c)|
    ensures chain == Ancestors(h, c)[..|chain|]
    ensures chain[0] == c && chain[|chain| - 1] == e
    ensures e !in chain[..|chain| - 1]
    decreases c
  {
    if c == e then [c]
    else
      var p := Parent(h, c).value;
      assert Ancestors(h, c) == [c] + Ancestors(h, p);
      [c] + ChainTo(h, p, e)
  }

  /** The type names of a chain of classes, as JSON strings. */
  function Tags(h: Hierarchy, chain: seq<ClassId>): (tags: seq<Value>)
    requires forall i | 0 <= i < |chain| :: Has(h, chain[i])
    ensures |tags| == |chain|
    ensures forall i | 0 <= i < |chain| :: tags[i] == Str(TypeName(h, chain[i]))
  {
    if |chain| == 0 then [] else [Str(TypeName(h, chain[0]))] + Tags(h, chain[1..])
  }

  /** The inner loop of `_mkconverter`: one getter per member not in the
      template, assigned in visiting order, so a later assignment replaces
      an earlier one in place. */
  function BuildGetters(ms: seq<(string, Definition)>, acc: Dict<Getter>): Result<Dict<Getter>>
    decreases |ms|
  {
    if |ms| == 0 then Ok(acc)
    else if Reserved(ms[0].0) then BuildGetters(ms[1..], acc)
    else match GetterFor(ms[0].0, ms[0].1)
      case Err(e) => Err(e)
      case Ok(g) => BuildGetters(ms[1..], Put(acc, ms[0].0, g))
  }

  /** One step of `BuildGetters`: the first member is skipped when reserved,
      and otherwise its getter is assigned. */
  lemma BuildGettersStep(ms: seq<(string, Definition)>, acc: Dict<Getter>)
    requires |ms| > 0 && BuildGetters(ms, acc).Ok?
    ensures Reserved(ms[0].0) ==> BuildGetters(ms, acc) == BuildGetters(ms[1..], acc)
    ensures !Reserved(ms[0].0) ==> (
      && GetterFor(ms[0].0, ms[0].1).Ok?
      && BuildGetters(ms, acc) == BuildGetters(ms[1..], Put(acc, ms[0].0, GetterFor(ms[0].0, ms[0].1).value)))
  {
  }

  /** `_mkconverter(cls)`. */
  function Compile(h: Hierarchy, c: ClassId): Result<Plan>
    requires Valid(h) && Has(h, c)
  {
    match EsRoot(h, c)
    case None => Err(NoEsClass(c))
    case Some(e) =>
      var chain := ChainTo(h, c, e);
      var template := [("class", List(Tags(h, chain))),
                       ("concrete_class", Str(TypeName(h, c))),
                       ("_type", Str(TypeName(h, e)))];
      match BuildGetters(MembersOf(h, chain), [])
      case Err(x) => Err(x)
      case Ok(gs) => Ok(Plan(template, gs))
  }

  /** The loop of the compiled converter: `body[member] = getter(object_)`
      for each getter in order; `getattr` fails on a missing attribute. */
  function RunGetters(gs: Dict<Getter>, o: Obj, body: Document): Result<Document>
    decreases |gs|
  {
    if |gs| == 0 then Ok(body)
    else if gs[0].0 !in o.attrs then Err(MissingAttribute(gs[0].0))
    else RunGetters(gs[1..], o, Put(body, gs[0].0, Apply(gs[0].1, o.attrs[gs[0].0], o)))
  }

  /** One step of `RunGetters`: the first getter reads an attribute the
      object has, and its value is assigned. */
  lemma RunGettersStep(gs: Dict<Getter>, o: Obj, body: Document)
    requires |gs| > 0 && RunGetters(gs, o, body).Ok?
    ensures gs[0].0 in o.attrs
    ensures RunGetters(gs, o, body) == RunGetters(gs[1..], o, Put(body, gs[0].0, Apply(gs[0].1, o.attrs[gs[0].0], o)))
  {
  }

  /** The compiled converter applied to an object. */
  function Run(p: Plan, o: Obj): Result<Document> {
    RunGetters(p.getters, o, Put(p.template, "_id", Int(o.id)))
  }

  /** `_object2json(object_)` without the cache. */
  function ToDocument(h: Hierarchy, o: Obj): Result<Document>
    requires Valid(h) && Has(h, o.cls)
  {
    var compiled := Compile(h, o.cls);
    if compiled.Err? then Err(compiled.error) else Run(compiled.value, o)
  }

  /** The `_converters` cache holds, per class, what `_mkconverter` builds. */
  ghost predicate PlanCacheSound(h: Hierarchy, cache: map<ClassId, Plan>)
    requires Valid(h)
  {
    forall k | k in cache :: Has(h, k) && Compile(h, k) == Ok(cache[k])
  }

  /** `_object2json(object_)`: compiles the class on first use and caches the
      plan; the document is the one a fresh compilation would give. */
  function Object2Json(h: Hierarchy, cache: map<ClassId, Plan>, o: Obj)
    : (res: (Result<Document>, map<ClassId, Plan>))
    requires Valid(h) && Has(h, o.cls) && PlanCacheSound(h, cache)
    ensures res.0 == ToDocument(h, o)
    ensures PlanCacheSound(h, res.1)
    ensures o.cls in res.1 <==> Compile(h, o.cls).Ok?
    ensures o.cls in cache ==> res.1 == cache
  {
    if o.cls in cache then (Run(cache[o.cls], o), cache)
    else
      var compiled := Compile(h, o.cls);
      if compiled.Err? then (Err(compiled.error), cache)
      else
        CacheExtend(h, cache, o.cls, compiled.value);
        (Run(compiled.value, o), cache[o.cls := compiled.value])
  }

  lemma CacheExtend(h: Hierarchy, cache: map<ClassId, Plan>, c: ClassId, p: Plan)
    requires Valid(h) && Has(h, c) && PlanCacheSound(h, cache) && Compile(h, c) == Ok(p)
    ensures PlanCacheSound(h, cache[c := p])
  {
    forall k | k in cache[c := p]
      ensures Has(h, k) && Compile(h, k) == Ok(cache[c := p][k])
    {
      if k != c { assert k in cache; }
    }
  }

  /** The getters compile exactly when no member outside the template has a
      `__convert__` that is neither callable nor None. */
  lemma {:induction false} BuildGettersOk(ms: seq<(string, Definition)>, acc: Dict<Getter>)
    ensures BuildGetters(ms, acc).Ok?
      <==> forall i | 0 <= i < |ms| && !Reserved(ms[i].0) :: GetterFor(ms[i].0, ms[i].1).Ok?
    decreases |ms|
  {
    if |ms| > 0 {
      var g := GetterFor(ms[0].0, ms[0].1);
      var acc' := if Reserved(ms[0].0) || g.Err? then acc else Put(acc, ms[0].0, g.value);
      BuildGettersOk(ms[1..], acc');
      assert forall i | 1 <= i < |ms| :: ms[1..][i - 1] == ms[i];
    }
  }

  lemma {:induction false} BuildGettersDistinct(ms: seq<(string, Definition)>, acc: Dict<Getter>)
    requires Distinct(acc) && BuildGetters(ms, acc).Ok?
    ensures Distinct(BuildGetters(ms, acc).value)
    decreases |ms|
  {
    if |ms| > 0 && !Reserved(ms[0].0) {
      var g := GetterFor(ms[0].0, ms[0].1);
      PutDistinct(acc, ms[0].0, g.value);
      BuildGettersDistinct(ms[1..], Put(acc, ms[0].0, g.value));
    } else if |ms| > 0 {
      BuildGettersDistinct(ms[1..], acc);
    }
  }

  /** Template keys and members never visited keep what the accumulator had. */
  lemma {:induction false} BuildGettersKeep(ms: seq<(string, Definition)>, acc: Dict<Getter>, m: string)
    requires BuildGetters(ms, acc).Ok?
    requires Reserved(m) || forall i | 0 <= i < |ms| :: ms[i].0 != m
    ensures Get(BuildGetters(ms, acc).value, m) == Get(acc, m)
    decreases |ms|
  {
    if |ms| > 0 {
      BuildGettersStep(ms, acc);
      var acc' := if Reserved(ms[0].0) then acc else Put(acc, ms[0].0, GetterFor(ms[0].0, ms[0].1).value);
      if !Reserved(m) {
        AvoidsTail(ms, m);
      }
      BuildGettersKeep(ms[1..], acc', m);
    }
  }

  /** A member visited outside the template ends up with the getter built
      from its last occurrence in visiting order. */
  lemma {:induction false} BuildGettersLast(ms: seq<(string, Definition)>, acc: Dict<Getter>, m: string, i: nat)
    requires BuildGetters(ms, acc).Ok?
    requires !Reserved(m) && LastAt(ms, m, i)
    ensures Get(BuildGetters(ms, acc).value, m).Some?
    ensures GetterFor(m, ms[i].1) == Ok(Get(BuildGetters(ms, acc).value, m).value)
    decreases |ms|
  {
    BuildGettersStep(ms, acc);
    LastAtTail(ms, m, i);
    if Reserved(ms[0].0) {
      assert i > 0;
      BuildGettersLast(ms[1..], acc, m, i - 1);
    } else {
      var acc' := Put(acc, ms[0].0, GetterFor(ms[0].0, ms[0].1).value);
      if i > 0 {
        BuildGettersLast(ms[1..], acc', m, i - 1);
      } else {
        BuildGettersKeep(ms[1..], acc', m);
        assert Get(acc', m) == Some(GetterFor(m, ms[0].1).value);
      }
    }
  }

  /** The compiled converter succeeds exactly when the object has every
      attribute a getter reads. */
  lemma {:induction false} RunGettersOk(gs: Dict<Getter>, o: Obj, body: Document)
    ensures RunGetters(gs, o, body).Ok? <==> forall i | 0 <= i < |gs| :: gs[i].0 in o.attrs
    decreases |gs|
  {
    if |gs| > 0 && gs[0].0 in o.attrs {
      RunGettersOk(gs[1..], o, Put(body, gs[0].0, Apply(gs[0].1, o.attrs[gs[0].0], o)));
      assert forall i | 1 <= i < |gs| :: gs[1..][i - 1] == gs[i];
    }
  }

  /** A key no getter sets keeps its value. */
  lemma {:induction false} RunGettersAbsent(gs: Dict<Getter>, o: Obj, body: Document, m: string)
    requires RunGetters(gs, o, body).Ok? && forall i | 0 <= i < |gs| :: gs[i].0 != m
    ensures Get(RunGetters(gs, o, body).value, m) == Get(body, m)
    decreases |gs|
  {
    if |gs| > 0 {
      RunGettersStep(gs, o, body);
      AvoidsTail(gs, m);
      RunGettersAbsent(gs[1..], o, Put(body, gs[0].0, Apply(gs[0].1, o.attrs[gs[0].0], o)), m);
    }
  }

  /** A key a getter sets ends with that getter's value. */
  lemma {:induction false} RunGettersPresent(gs: Dict<Getter>, o: Obj, body: Document, m: string, i: int)
    requires Distinct(gs) && RunGetters(gs, o, body).Ok?
    requires 0 <= i < |gs| && gs[i].0 == m
    ensures m in o.attrs && Get(RunGetters(gs, o, body).value, m) == Some(Apply(gs[i].1, o.attrs[m], o))
    decreases |gs|
  {
    RunGettersStep(gs, o, body);
    DistinctTail(gs);
    var body' := Put(body, gs[0].0, Apply(gs[0].1, o.attrs[gs[0].0], o));
    if i == 0 {
      RunGettersAbsent(gs[1..], o, body', m);
    } else {
      assert gs[1..][i - 1] == gs[i];
      RunGettersPresent(gs[1..], o, body', m, i - 1);
    }
  }

  /** Each getter sets its own key to the getter applied to the attribute;
      every other key keeps its template value. */
  lemma RunGettersGet(gs: Dict<Getter>, o: Obj, body: Document, m: string)
    requires Distinct(gs) && RunGetters(gs, o, body).Ok?
    ensures var doc := RunGetters(gs, o, body).value;
      && ((forall i | 0 <= i < |gs| :: gs[i].0 != m) ==> Get(doc, m) == Get(body, m))
      && (forall i | 0 <= i < |gs| && gs[i].0 == m :: m in o.attrs && Get(doc, m) == Some(Apply(gs[i].1, o.attrs[m], o)))
  {
    if forall i | 0 <= i < |gs| :: gs[i].0 != m {
      RunGettersAbsent(gs, o, body, m);
    }
    forall i | 0 <= i < |gs| && gs[i].0 == m
      ensures m in o.attrs && Get(RunGetters(gs, o, body).value, m) == Some(Apply(gs[i].1, o.attrs[m], o))
    {
      RunGettersPresent(gs, o, body, m, i);
    }
  }

  /** A compiled getter yields the value `__mkmembergetter` yields for its member. */
  lemma GetterForValue(m: string, def: Definition, raw: Value, o: Obj)
    requires GetterFor(m, def).Ok?
    ensures Apply(GetterFor(m, def).value, raw, o) == MemberValue(def, raw, o)
  {
  }

  /** The getters compiled from `ms` are keyed by exactly the members of
      `ms` outside the template. */
  lemma GettersKeys(ms: seq<(string, Definition)>, m: string)
    requires BuildGetters(ms, []).Ok?
    ensures m in Keys(BuildGetters(ms, []).value) <==> !Reserved(m) && m in Keys(ms)
  {
    if !Reserved(m) && m in Keys(ms) {
      var i :| 0 <= i < |ms| && Keys(ms)[i] == m;
      LastOccurrence(ms, m, i);
      var j :| i <= j < |ms| && LastAt(ms, m, j);
      BuildGettersLast(ms, [], m, j);
    } else {
      forall i | 0 <= i < |ms| ensures Reserved(m) || ms[i].0 != m {
        assert ms[i].0 == Keys(ms)[i];
      }
      BuildGettersKeep(ms, [], m);
    }
  }

  /** The (member, definition) pairs `_mkconverter` visits for an object of
      class `c` whose es class is `e`. */
  function Visited(h: Hierarchy, c: ClassId, e: ClassId): seq<(string, Definition)>
    requires Valid(h) && Has(h, c) && e in Ancestors(h, c)
  {
    MembersOf(h, ChainTo(h, c, e))
  }

  /** When a document can be built: the class has an es class, no visited
      member outside the template has an unusable converter, and the object
      has every such member as an attribute. */
  lemma DocumentOk(h: Hierarchy, o: Obj)
    requires Valid(h) && Has(h, o.cls)
    ensures ToDocument(h, o).Ok? <==>
      && EsRoot(h, o.cls).Some?
      && var ms := Visited(h, o.cls, EsRoot(h, o.cls).value);
         forall i | 0 <= i < |ms| && !Reserved(ms[i].0) :: GetterFor(ms[i].0, ms[i].1).Ok? && ms[i].0 in o.attrs
  {
    if EsRoot(h, o.cls).Some? {
      var ms := Visited(h, o.cls, EsRoot(h, o.cls).value);
      BuildGettersOk(ms, []);
      if BuildGetters(ms, []).Ok? {
        var gs := BuildGetters(ms, []).value;
        var p := Compile(h, o.cls).value;
        assert p.getters == gs;
        RunGettersOk(gs, o, Put(p.template, "_id", Int(o.id)));
        forall i | 0 <= i < |gs| ensures !Reserved(gs[i].0) && gs[i].0 in Keys(ms) {
          assert gs[i].0 == Keys(gs)[i];
          GettersKeys(ms, gs[i].0);
        }
        forall i | 0 <= i < |ms| && !Reserved(ms[i].0) ensures ms[i].0 in Keys(gs) {
          assert ms[i].0 == Keys(ms)[i];
          GettersKeys(ms, ms[i].0);
        }
      }
    }
  }

  /** What `_mkconverter` builds once the es class is known. */
  lemma CompiledPlan(h: Hierarchy, c: ClassId, e: ClassId)
    requires Valid(h) && Has(h, c) && EsRoot(h, c) == Some(e) && Compile(h, c).Ok?
    ensures var p := Compile(h, c).value;
      && Keys(p.template) == ["class", "concrete_class", "_type"]
      && Get(p.template, "class") == Some(List(Tags(h, ChainTo(h, c, e))))
      && Get(p.template, "concrete_class") == Some(Str(TypeName(h, c)))
      && Get(p.template, "_type") == Some(Str(TypeName(h, e)))
      && BuildGetters(Visited(h, c, e), []) == Ok(p.getters)
      && Distinct(p.getters)
  {
    BuildGettersDistinct(Visited(h, c, e), []);
    TemplateGet(List(Tags(h, ChainTo(h, c, e))), Str(TypeName(h, c)), Str(TypeName(h, e)));
  }

  lemma TemplateGet(classes: Value, concrete: Value, typ: Value)
    ensures var t := [("class", classes), ("concrete_class", concrete), ("_type", typ)];
      && Keys(t) == ["class", "concrete_class", "_type"]
      && Get(t, "class") == Some(classes)
      && Get(t, "concrete_class") == Some(concrete)
      && Get(t, "_type") == Some(typ)
  {
    var t := [("class", classes), ("concrete_class", concrete), ("_type", typ)];
    assert t[1..] == [("concrete_class", concrete), ("_type", typ)];
    assert t[1..][1..] == [("_type", typ)];
    assert Get(t[1..][1..], "_type") == Some(typ);
    assert Get(t[1..], "_type") == Some(typ);
  }

  /** Keys without a getter keep the template's value, or the id for `_id`. */
  lemma RunKeeps(p: Plan, o: Obj, m: string)
    requires Distinct(p.getters) && Run(p, o).Ok? && m !in Keys(p.getters)
    ensures Get(Run(p, o).value, m) == Get(Put(p.template, "_id", Int(o.id)), m)
  {
    forall i | 0 <= i < |p.getters| ensures p.getters[i].0 != m {
      assert p.getters[i].0 == Keys(p.getters)[i];
    }
    RunGettersGet(p.getters, o, Put(p.template, "_id", Int(o.id)), m);
  }

  /** A compiled converter keeps the template and sets `_id` to the id,
      unless a getter replaces it. */
  lemma RunTemplate(p: Plan, o: Obj)
    requires Distinct(p.getters) && Run(p, o).Ok?
    requires Keys(p.template) == ["class", "concrete_class", "_type"]
    requires forall m | m in Keys(p.getters) :: !Reserved(m)
    ensures Get(Run(p, o).value, "class") == Get(p.template, "class")
    ensures Get(Run(p, o).value, "concrete_class") == Get(p.template, "concrete_class")
    ensures Get(Run(p, o).value, "_type") == Get(p.template, "_type")
    ensures "_id" !in Keys(p.getters) ==> Get(Run(p, o).value, "_id") == Some(Int(o.id))
  {
    RunKeeps(p, o, "class");
    RunKeeps(p, o, "concrete_class");
    RunKeeps(p, o, "_type");
    if "_id" !in Keys(p.getters) {
      RunKeeps(p, o, "_id");
    }
  }

  /** The fixed keys of a document: `class` lists the type names from the
      concrete class up to the es class, `concrete_class` and `_type` name
      those two, and `_id` is the object id unless a member named `_id`
      replaces it. */
  lemma DocumentTemplate(h: Hierarchy, o: Obj, e: ClassId, doc: Document)
    requires Valid(h) && Has(h, o.cls) && EsRoot(h, o.cls) == Some(e) && ToDocument(h, o) == Ok(doc)
    ensures Get(doc, "class") == Some(List(Tags(h, ChainTo(h, o.cls, e))))
    ensures Get(doc, "concrete_class") == Some(Str(TypeName(h, o.cls)))
    ensures Get(doc, "_type") == Some(Str(TypeName(h, e)))
    ensures "_id" !in Keys(Visited(h, o.cls, e)) ==> Get(doc, "_id") == Some(Int(o.id))
  {
    var ms := Visited(h, o.cls, e);
    var p := Compile(h, o.cls).value;
    CompiledPlan(h, o.cls, e);
    forall m | m in Keys(p.getters) ensures !Reserved(m) {
      GettersKeys(ms, m);
    }
    GettersKeys(ms, "_id");
    RunTemplate(p, o);
  }

  /** Every visited member outside the template gets its own key, holding
      the attribute, converted as its last visited definition says. */
  lemma DocumentMember(h: Hierarchy, o: Obj, e: ClassId, doc: Document, m: string, i: nat)
    requires Valid(h) && Has(h, o.cls) && EsRoot(h, o.cls) == Some(e) && ToDocument(h, o) == Ok(doc)
    requires !Reserved(m) && LastAt(Visited(h, o.cls, e), m, i)
    ensures m in o.attrs
    ensures Get(doc, m) == Some(MemberValue(Visited(h, o.cls, e)[i].1, o.attrs[m], o))
  {
    var ms := Visited(h, o.cls, e);
    var p := Compile(h, o.cls).value;
    var gs := p.getters;
    assert BuildGetters(ms, []) == Ok(gs);
    var body := Put(p.template, "_id", Int(o.id));
    BuildGettersDistinct(ms, []);
    BuildGettersLast(ms, [], m, i);
    var j :| 0 <= j < |gs| && Keys(gs)[j] == m;
    GetDistinct(gs, j);
    RunGettersGet(gs, o, body, m);
    GetterForValue(m, ms[i].1, o.attrs[m], o);
  }

  /** The keys of a compiled converter's output: the template's, `_id`
      and one per getter. */
  lemma RunKeys(p: Plan, o: Obj, m: string)
    requires Distinct(p.getters) && Run(p, o).Ok?
    requires Keys(p.template) == ["class", "concrete_class", "_type"]
    ensures m in Keys(Run(p, o).value) <==> Reserved(m) || m == "_id" || m in Keys(p.getters)
  {
    var body := Put(p.template, "_id", Int(o.id));
    var doc := Run(p, o).value;
    assert Keys(body) == ["class", "concrete_class", "_type", "_id"];
    if m in Keys(p.getters) {
      var j :| 0 <= j < |p.getters| && Keys(p.getters)[j] == m;
      assert p.getters[j].0 == m;
      RunGettersGet(p.getters, o, body, m);
      assert Get(doc, m).Some?;
    } else {
      RunKeeps(p, o, m);
      assert Get(doc, m) == Get(body, m);
      assert m in Keys(body) <==> Reserved(m) || m == "_id";
    }
  }

  /** Running getters never repeats a key: each one assigns into the body. */
  lemma {:induction false} RunGettersDistinct(gs: Dict<Getter>, o: Obj, body: Document)
    requires Distinct(body) && RunGetters(gs, o, body).Ok?
    ensures Distinct(RunGetters(gs, o, body).value)
    decreases |gs|
  {
    if |gs| > 0 {
      RunGettersStep(gs, o, body);
      PutDistinct(body, gs[0].0, Apply(gs[0].1, o.attrs[gs[0].0], o));
      RunGettersDistinct(gs[1..], o, Put(body, gs[0].0, Apply(gs[0].1, o.attrs[gs[0].0], o)));
    }
  }

  /** A compiled converter with the three template keys builds documents
      that hold each key once. */
  lemma RunDistinct(p: Plan, o: Obj)
    requires Keys(p.template) == ["class", "concrete_class", "_type"] && Run(p, o).Ok?
    ensures Distinct(Run(p, o).value)
  {
    KeysDistinct(p.template);
    PutDistinct(p.template, "_id", Int(o.id));
    RunGettersDistinct(p.getters, o, Put(p.template, "_id", Int(o.id)));
  }

  /** A document holds each of its keys once. */
  lemma DocumentDistinct(h: Hierarchy, o: Obj, e: ClassId, doc: Document)
    requires Valid(h) && Has(h, o.cls) && EsRoot(h, o.cls) == Some(e) && ToDocument(h, o) == Ok(doc)
    ensures Distinct(doc)
  {
    var p := Compile(h, o.cls).value;
    CompiledPlan(h, o.cls, e);
    RunDistinct(p, o);
  }

  /** A document has no keys besides the template, `_id` and the visited
      members, and holds each key once. */
  lemma DocumentKeys(h: Hierarchy, o: Obj, e: ClassId, doc: Document, m: string)
    requires Valid(h) && Has(h, o.cls) && EsRoot(h, o.cls) == Some(e) && ToDocument(h, o) == Ok(doc)
    ensures m in Keys(doc) <==>
      Reserved(m) || m == "_id" || m in Keys(Visited(h, o.cls, e))
    ensures Distinct(doc)
  {
    var p := Compile(h, o.cls).value;
    CompiledPlan(h, o.cls, e);
    RunKeys(p, o, m);
    GettersKeys(Visited(h, o.cls, e), m);
    DocumentDistinct(h, o, e, doc);
  }

  /** Every class of a chain contributes its type name to the tags. */
  lemma TagsContain(h: Hierarchy, chain: seq<ClassId>, c: ClassId)
    requires forall i | 0 <= i < |chain| :: Has(h, chain[i])
    requires c in chain
    ensures Has(h, c) && Str(TypeName(h, c)) in Tags(h, chain)
  {
    var k :| 0 <= k < |chain| && chain[k] == c;
    assert Tags(h, chain)[k] == Str(TypeName(h, c));
  }
}
