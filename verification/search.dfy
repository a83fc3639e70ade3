/** `query`: the search request and the routing of its hits back to the
    database, for several classes at once (score/es/_init.py) and for one
    class with a class filter (score/es/__init__.py). */
module Search {
  import opened Results
  import opened Dict
  import opened Values
  import opened TypeRegistry
  import opened Documents
  import opened Backend

  /** The `query` argument: a lucene string or a query DSL structure. */
  datatype Query = Text(text: string) | Dsl(dsl: Value)

  /** A search hit: its `_type` and its `_id` as `int(hit['_id'])` gives it. */
  datatype Hit = Hit(docType: string, id: int)

  /** One `session.by_ids(cls, ids)` call; `cls` is None only for the call
      made when there were no hits at all. */
  datatype Fetch = Fetch(cls: Option<ClassId>, ids: seq<int>)

  // ---------------------------------------------------------------------
  // `','.join(doctypes)` and its inverse

  function Join(parts: seq<string>): string {
    if |parts| == 0 then ""
    else if |parts| == 1 then parts[0]
    else parts[0] + "," + Join(parts[1..])
  }

  /** The position of the first comma, if any. */
  function CommaAt(s: string): (i: Option<nat>)
    ensures i.Some? ==> i.value < |s| && s[i.value] == ','
    ensures forall j | 0 <= j < |s| && s[j] == ',' :: i.Some? && i.value <= j
  {
    if |s| == 0 then None
    else if s[0] == ',' then Some(0)
    else match CommaAt(s[1..])
      case None => None
      case Some(k) => Some(k + 1)
  }

  /** `s.split(',')`. */
  function Split(s: string): (parts: seq<string>)
    ensures |parts| >= 1
    decreases |s|
  {
    match CommaAt(s)
    case None => [s]
    case Some(i) => [s[..i]] + Split(s[i + 1..])
  }

  /** Type names without commas survive the join the search request makes. */
  lemma {:induction false} SplitJoin(parts: seq<string>)
    requires |parts| >= 1
    requires forall i | 0 <= i < |parts| :: ',' !in parts[i]
    ensures Split(Join(parts)) == parts
    decreases |parts|
  {
    if |parts| > 1 {
      var n := |parts[0]|;
      var s := parts[0] + "," + Join(parts[1..]);
      assert s[n] == ',';
      assert forall j | 0 <= j < n :: s[j] == parts[0][j];
      assert CommaAt(s) == Some(n);
      assert s[..n] == parts[0];
      assert s[n + 1..] == Join(parts[1..]);
      SplitJoin(parts[1..]);
    } else {
      assert CommaAt(parts[0]).None?;
    }
  }

  // ---------------------------------------------------------------------
  // The doc types of the requested classes

  /** The es class of each requested class, as `get_es_class` finds it. */
  function Roots(h: Hierarchy, classes: seq<ClassId>): (roots: seq<Option<ClassId>>)
    requires Valid(h) && forall i | 0 <= i < |classes| :: Has(h, classes[i])
    ensures |roots| == |classes|
    ensures forall i | 0 <= i < |classes| :: roots[i] == EsRoot(h, classes[i])
    ensures forall i | 0 <= i < |roots| && roots[i].Some? :: Has(h, roots[i].value)
  {
    seq(|classes|, i requires 0 <= i < |classes| => EsRoot(h, classes[i]))
  }

  /** The loop of `query` over the classes, given their es classes: the doc
      type of each class in order; a class without an es class fails on
      `None.__score_db__`. */
  function CollectTypes(h: Hierarchy, classes: seq<ClassId>, roots: seq<Option<ClassId>>): (r: Result<seq<string>>)
    requires |roots| == |classes|
    requires forall i | 0 <= i < |roots| && roots[i].Some? :: Has(h, roots[i].value)
    ensures r.Ok? ==> |r.value| == |classes|
    decreases |classes|
  {
    if |classes| == 0 then Ok([])
    else
      var n := |classes| - 1;
      var prev := CollectTypes(h, classes[..n], roots[..n]);
      if prev.Err? then prev
      else if roots[n].None? then Err(NoEsClass(classes[n]))
      else Ok(prev.value + [TypeName(h, roots[n].value)])
  }

  /** The assignments `doctype2class[doctype] = cls` the loop makes, in order. */
  function Assignments(ts: seq<string>, classes: seq<ClassId>): (ps: seq<(string, ClassId)>)
    requires |ts| == |classes|
    ensures |ps| == |ts| && forall i | 0 <= i < |ts| :: ps[i] == (ts[i], classes[i])
  {
    seq(|ts|, i requires 0 <= i < |ts| => (ts[i], classes[i]))
  }

  /** The doc types and the `doctype2class` map of `query`. */
  function DocTypes(h: Hierarchy, classes: seq<ClassId>): (r: Result<(seq<string>, Dict<ClassId>)>)
    requires Valid(h) && forall i | 0 <= i < |classes| :: Has(h, classes[i])
    ensures r.Ok? ==> |r.value.0| == |classes|
  {
    match CollectTypes(h, classes, Roots(h, classes))
    case Err(e) => Err(e)
    case Ok(ts) => Ok((ts, PutAll([], Assignments(ts, classes))))
  }

  lemma {:induction false} CollectOk(h: Hierarchy, classes: seq<ClassId>, roots: seq<Option<ClassId>>)
    requires |roots| == |classes|
    requires forall i | 0 <= i < |roots| && roots[i].Some? :: Has(h, roots[i].value)
    ensures CollectTypes(h, classes, roots).Ok? <==> forall i | 0 <= i < |roots| :: roots[i].Some?
    ensures CollectTypes(h, classes, roots).Err? ==> exists i | 0 <= i < |roots| ::
      CollectTypes(h, classes, roots).error == NoEsClass(classes[i]) && roots[i].None?
    decreases |classes|
  {
    if |classes| > 0 {
      var n := |classes| - 1;
      CollectOk(h, classes[..n], roots[..n]);
      assert forall i | 0 <= i < n :: roots[..n][i] == roots[i] && classes[..n][i] == classes[i];
    }
  }

  lemma {:induction false} CollectNames(h: Hierarchy, classes: seq<ClassId>, roots: seq<Option<ClassId>>, i: int)
    requires |roots| == |classes|
    requires forall k | 0 <= k < |roots| && roots[k].Some? :: Has(h, roots[k].value)
    requires CollectTypes(h, classes, roots).Ok? && 0 <= i < |classes| && roots[i].Some?
    ensures CollectTypes(h, classes, roots).value[i] == TypeName(h, roots[i].value)
    decreases |classes|
  {
    var n := |classes| - 1;
    if i < n {
      assert roots[..n][i] == roots[i];
      CollectNames(h, classes[..n], roots[..n], i);
    }
  }

  /** The doc types exist exactly when every requested class has an es
      class; otherwise the error names a requested class that has none. */
  lemma DocTypesOk(h: Hierarchy, classes: seq<ClassId>)
    requires Valid(h) && forall i | 0 <= i < |classes| :: Has(h, classes[i])
    ensures DocTypes(h, classes).Ok? <==> forall i | 0 <= i < |classes| :: EsRoot(h, classes[i]).Some?
    ensures DocTypes(h, classes).Err? ==> exists i | 0 <= i < |classes| ::
      DocTypes(h, classes).error == NoEsClass(classes[i]) && EsRoot(h, classes[i]).None?
  {
    CollectOk(h, classes, Roots(h, classes));
  }

  /** The doc types are the requested classes' es class type names, in
      order. */
  lemma DocTypesNames(h: Hierarchy, classes: seq<ClassId>, i: int)
    requires Valid(h) && forall k | 0 <= k < |classes| :: Has(h, classes[k])
    requires DocTypes(h, classes).Ok? && 0 <= i < |classes|
    ensures EsRoot(h, classes[i]).Some?
    ensures DocTypes(h, classes).value.0[i] == TypeName(h, EsRoot(h, classes[i]).value)
  {
    DocTypesOk(h, classes);
    CollectNames(h, classes, Roots(h, classes), i);
  }

  /** Replaying the assignments defines exactly the assigned doc types. */
  lemma AssignmentsKeys(ts: seq<string>, classes: seq<ClassId>, t: string)
    requires |ts| == |classes|
    ensures t in Keys(PutAll([], Assignments(ts, classes))) <==> t in ts
  {
    var ps := Assignments(ts, classes);
    PutAllKeys([], ps, t);
    if t in ts {
      var i :| 0 <= i < |ts| && ts[i] == t;
      assert ps[i].0 == t;
    }
  }

  /** Replaying the assignments maps each doc type to the class of its last
      assignment. */
  lemma AssignmentsLast(ts: seq<string>, classes: seq<ClassId>, t: string, i: int)
    requires |ts| == |classes|
    requires 0 <= i < |ts| && ts[i] == t && forall j | i < j < |ts| :: ts[j] != t
    ensures Get(PutAll([], Assignments(ts, classes)), t) == Some(classes[i])
  {
    var ps := Assignments(ts, classes);
    assert LastAt(ps, t, i);
    PutAllGet([], ps, t);
  }

  /** A doc type maps to the last requested class whose es class carries
      that type name, and only requested doc types are mapped. */
  lemma DocTypesMap(h: Hierarchy, classes: seq<ClassId>, t: string)
    requires Valid(h) && forall i | 0 <= i < |classes| :: Has(h, classes[i])
    requires DocTypes(h, classes).Ok?
    ensures var (ts, d2c) := DocTypes(h, classes).value;
      && (t in Keys(d2c) <==> t in ts)
      && forall i | 0 <= i < |ts| && ts[i] == t && (forall j | i < j < |ts| :: ts[j] != t) ::
           Get(d2c, t) == Some(classes[i])
  {
    var ts := CollectTypes(h, classes, Roots(h, classes)).value;
    AssignmentsKeys(ts, classes, t);
    forall i | 0 <= i < |ts| && ts[i] == t && (forall j | i < j < |ts| :: ts[j] != t)
      ensures Get(PutAll([], Assignments(ts, classes)), t) == Some(classes[i])
    {
      AssignmentsLast(ts, classes, t, i);
    }
  }

  /** The `es.search` call of `query`. */
  function SearchRequest(index: string, analyzeWildcard: bool, docTypes: seq<string>, query: Query,
                         offset: int, limit: int): (r: Request)
    ensures r.Search? && r.index == index && r.fields == "_id" && r.from == offset && r.size == limit
    ensures r.analyzeWildcard == analyzeWildcard
    ensures query.Text? <==> r.query.Q?
    ensures query.Text? ==> r.query.text == query.text
    ensures query.Dsl? ==> r.query.dsl == Object([("query", query.dsl)])
  {
    Search(index, analyzeWildcard, "_id", Join(docTypes), offset, limit,
           match query
           case Text(q) => Q(q)
           case Dsl(q) => Body(Object([("query", q)])))
  }

  /** The searched doc types are recovered from the request, in order. */
  lemma SearchDocTypes(index: string, analyzeWildcard: bool, docTypes: seq<string>, query: Query, offset: int, limit: int)
    requires |docTypes| >= 1 && forall i | 0 <= i < |docTypes| :: ',' !in docTypes[i]
    ensures Split(SearchRequest(index, analyzeWildcard, docTypes, query, offset, limit).docType) == docTypes
  {
    SplitJoin(docTypes);
  }

  // ---------------------------------------------------------------------
  // Routing the hits

  /** The (class, id) pairs one fetch asks for, in order. */
  function Pairs(f: Fetch): (ps: seq<(Option<ClassId>, int)>)
    ensures |ps| == |f.ids| && forall k | 0 <= k < |f.ids| :: ps[k] == (f.cls, f.ids[k])
  {
    seq(|f.ids|, k requires 0 <= k < |f.ids| => (f.cls, f.ids[k]))
  }

  /** The (class, id) pairs a list of fetches asks for, in order. */
  function Expand(fs: seq<Fetch>): seq<(Option<ClassId>, int)> {
    if |fs| == 0 then [] else Expand(fs[..|fs| - 1]) + Pairs(fs[|fs| - 1])
  }

  /** Each hit labelled with the class its doc type maps to. */
  function Labels(d2c: Dict<ClassId>, hits: seq<Hit>): (ls: seq<(Option<ClassId>, int)>)
    ensures |ls| == |hits|
    ensures forall i | 0 <= i < |hits| :: ls[i] == (Get(d2c, hits[i].docType), hits[i].id)
  {
    seq(|hits|, i requires 0 <= i < |hits| => (Get(d2c, hits[i].docType), hits[i].id))
  }

  /** Maximal runs: each fetch names a class and at least one id, and
      neighbouring fetches name different classes. */
  ghost predicate Runs(fs: seq<Fetch>) {
    && (forall k | 0 <= k < |fs| :: fs[k].cls.Some? && |fs[k].ids| > 0)
    && (forall k | 0 < k < |fs| :: fs[k - 1].cls != fs[k].cls)
  }

  /** A run may follow a list of runs when it is non-empty and of another
      class than the last one. */
  ghost predicate Follows(fs: seq<Fetch>, f: Fetch) {
    f.cls.Some? && |f.ids| > 0 && (|fs| > 0 ==> fs[|fs| - 1].cls != f.cls)
  }

  lemma RunsSnoc(fs: seq<Fetch>, f: Fetch)
    ensures Runs(fs + [f]) <==> Runs(fs) && Follows(fs, f)
  {
    var g := fs + [f];
    assert forall k | 0 <= k < |fs| :: g[k] == fs[k];
    assert g[|fs|] == f;
  }

  lemma ExpandSnoc(fs: seq<Fetch>, f: Fetch)
    ensures Expand(fs + [f]) == Expand(fs) + Pairs(f)
  {
    assert (fs + [f])[..|fs|] == fs;
  }

  lemma PairsSnoc(c: Option<ClassId>, ids: seq<int>, x: int)
    ensures Pairs(Fetch(c, ids + [x])) == Pairs(Fetch(c, ids)) + [(c, x)]
  {
  }

  /** `doctype2class[hit['_type']]` for each hit in order, with the hit's
      id; the first unknown doc type raises KeyError. */
  function Classify(d2c: Dict<ClassId>, hits: seq<Hit>): (r: Result<seq<(Option<ClassId>, int)>>)
    ensures r.Ok? <==> forall i | 0 <= i < |hits| :: hits[i].docType in Keys(d2c)
    ensures r.Err? ==> exists i | 0 <= i < |hits| ::
      r.error == UnknownDocType(hits[i].docType) && hits[i].docType !in Keys(d2c)
    ensures r.Ok? ==> r.value == Labels(d2c, hits)
  {
    if |hits| == 0 then Ok([])
    else
      var found := Get(d2c, hits[0].docType);
      if found.None? then Err(UnknownDocType(hits[0].docType))
      else match Classify(d2c, hits[1..])
        case Err(e) => Err(e)
        case Ok(rest) => Ok([(found, hits[0].id)] + rest)
  }

  /** The state of the hit loop: the runs already fetched, `current_class`
      and `ids`. */
  datatype Acc = Acc(fetches: seq<Fetch>, current: Option<ClassId>, ids: seq<int>)

  /** One turn of the hit loop: a hit of another class closes the open run
      (when there is one) and opens a new one. */
  function Feed(a: Acc, found: Option<ClassId>, x: int): Acc {
    if found != a.current then
      Acc(if a.current.Some? then a.fetches + [Fetch(a.current, a.ids)] else a.fetches, found, [x])
    else Acc(a.fetches, a.current, a.ids + [x])
  }

  /** The runs so far are maximal and the open run may follow them. */
  ghost predicate Open(a: Acc) {
    Runs(a.fetches) && Follows(a.fetches, Fetch(a.current, a.ids))
  }

  /** The (class, id) pairs taken in so far. */
  ghost function Seen(a: Acc): seq<(Option<ClassId>, int)> {
    Expand(a.fetches) + Pairs(Fetch(a.current, a.ids))
  }

  /** Each turn keeps the runs maximal and takes in exactly its hit. */
  lemma FeedSpec(a: Acc, found: Option<ClassId>, x: int)
    requires found.Some?
    requires Open(a) || a == Acc([], None, [])
    ensures Open(Feed(a, found, x))
    ensures Seen(Feed(a, found, x)) == Seen(a) + [(found, x)]
  {
    var b := Feed(a, found, x);
    if found != a.current {
      if a.current.Some? {
        RunsSnoc(a.fetches, Fetch(a.current, a.ids));
        ExpandSnoc(a.fetches, Fetch(a.current, a.ids));
        assert b.fetches[|b.fetches| - 1] == Fetch(a.current, a.ids);
      }
      assert Expand(b.fetches) == Seen(a);
      assert Pairs(Fetch(found, [x])) == [(found, x)];
    } else {
      PairsSnoc(a.current, a.ids, x);
    }
  }

  /** The run-building part of the hit loop: consecutive hits of the same
      class are fetched together, and the final `by_ids` call is made even
      when there were no hits. */
  method Group(labels: seq<(Option<ClassId>, int)>) returns (fs: seq<Fetch>)
    requires forall i | 0 <= i < |labels| :: labels[i].0.Some?
    ensures |labels| == 0 ==> fs == [Fetch(None, [])]
    ensures |labels| > 0 ==> Runs(fs)
    ensures Expand(fs) == labels
  {
    var acc := Acc([], None, []);
    for i := 0 to |labels|
      invariant i == 0 ==> acc == Acc([], None, [])
      invariant i > 0 ==> Open(acc)
      invariant Seen(acc) == labels[..i]
    {
      FeedSpec(acc, labels[i].0, labels[i].1);
      acc := Feed(acc, labels[i].0, labels[i].1);
      assert labels[..i + 1] == labels[..i] + [labels[i]];
    }
    assert labels[..|labels|] == labels;
    RunsSnoc(acc.fetches, Fetch(acc.current, acc.ids));
    ExpandSnoc(acc.fetches, Fetch(acc.current, acc.ids));
    fs := acc.fetches + [Fetch(acc.current, acc.ids)];
  }

  /** The hit loop of `query`. */
  method Partition(d2c: Dict<ClassId>, hits: seq<Hit>) returns (r: Result<seq<Fetch>>)
    ensures r.Ok? <==> forall i | 0 <= i < |hits| :: hits[i].docType in Keys(d2c)
    ensures r.Err? ==> exists i | 0 <= i < |hits| :: r.error == UnknownDocType(hits[i].docType)
    ensures r.Ok? && |hits| == 0 ==> r.value == [Fetch(None, [])]
    ensures r.Ok? && |hits| > 0 ==> Runs(r.value)
    ensures r.Ok? ==> Expand(r.value) == Labels(d2c, hits)
  {
    var labels := Classify(d2c, hits);
    if labels.Err? {
      return Err(labels.error);
    }
    var fs := Group(labels.value);
    r := Ok(fs);
  }

  /** `session.by_ids(cls, ids)`: whatever rows the session returns for a
      class (None for the call made when there were no hits) and a list of
      ids, in the order it returns them. */
  type ByIds = (Option<ClassId>, seq<int>) -> seq<Obj>

  /** Everything `query` yields: the answers to its `by_ids` calls, one
      after another. */
  function Yielded(byIds: ByIds, fs: seq<Fetch>): seq<Obj> {
    if |fs| == 0 then [] else Yielded(byIds, fs[..|fs| - 1]) + byIds(fs[|fs| - 1].cls, fs[|fs| - 1].ids)
  }

  /** The `by_ids` calls `query` makes for the labelled hits: one empty call
      for None when there are none, otherwise the maximal same-class runs,
      which concatenate back to the hits. */
  ghost predicate RoutedRuns(fs: seq<Fetch>, labels: seq<(Option<ClassId>, int)>) {
    && (|labels| == 0 ==> fs == [Fetch(None, [])])
    && (|labels| > 0 ==> Runs(fs))
    && Expand(fs) == labels
  }

  /** The last pair of a non-empty list of runs belongs to its last run. */
  lemma ExpandLast(fs: seq<Fetch>)
    requires Runs(fs) && |fs| > 0
    ensures var e := Expand(fs); |e| >= |fs[|fs| - 1].ids| > 0 && e[|e| - 1].0 == fs[|fs| - 1].cls
  {
    var f := fs[|fs| - 1];
    assert Expand(fs) == Expand(fs[..|fs| - 1]) + Pairs(f);
  }

  /** The last run of a list of maximal runs covers the tail of its pairs,
      and the pair just before it belongs to another class. */
  lemma RunStart(fs: seq<Fetch>)
    requires Runs(fs) && |fs| > 0
    ensures var e := Expand(fs); var f := fs[|fs| - 1];
      && 0 < |f.ids| <= |e|
      && (forall i | |e| - |f.ids| <= i < |e| :: e[i].0 == f.cls)
      && (|e| > |f.ids| ==> e[|e| - |f.ids| - 1].0 != f.cls)
  {
    var f, fi := fs[|fs| - 1], fs[..|fs| - 1];
    assert fs == fi + [f];
    ExpandSnoc(fi, f);
    RunsSnoc(fi, f);
    if |fi| > 0 {
      ExpandLast(fi);
    }
  }

  /** Two lists of maximal runs with the same pairs end in runs of the same
      class and length. */
  lemma LastRunsAgree(fs: seq<Fetch>, gs: seq<Fetch>)
    requires Runs(fs) && Runs(gs) && |fs| > 0 && |gs| > 0 && Expand(fs) == Expand(gs)
    ensures fs[|fs| - 1].cls == gs[|gs| - 1].cls
    ensures |fs[|fs| - 1].ids| == |gs[|gs| - 1].ids|
  {
    var e := Expand(fs);
    RunStart(fs);
    RunStart(gs);
    assert e[|e| - 1].0 == fs[|fs| - 1].cls;
  }

  /** Two concatenations that agree and whose second parts have the same
      length agree part by part. */
  lemma SplitEqual<T>(a: seq<T>, b: seq<T>, c: seq<T>, d: seq<T>)
    requires a + b == c + d && |b| == |d|
    ensures a == c && b == d
  {
    assert a == (a + b)[..|a|] && c == (c + d)[..|c|];
    assert b == (a + b)[|a|..] && d == (c + d)[|c|..];
  }

  /** A fetch with at least one id is determined by the pairs it asks for. */
  lemma PairsInjective(f: Fetch, g: Fetch)
    requires |f.ids| > 0 && Pairs(f) == Pairs(g)
    ensures f == g
  {
    assert Pairs(f)[0] == Pairs(g)[0];
    forall k | 0 <= k < |f.ids| ensures f.ids[k] == g.ids[k] {
      assert Pairs(f)[k] == Pairs(g)[k];
    }
  }

  /** Two non-empty lists of maximal runs with the same pairs have the same
      last run, and the runs before it have the same pairs. */
  lemma LastRunsEqual(fs: seq<Fetch>, gs: seq<Fetch>)
    requires Runs(fs) && Runs(gs) && |fs| > 0 && |gs| > 0 && Expand(fs) == Expand(gs)
    ensures fs[|fs| - 1] == gs[|gs| - 1]
    ensures Runs(fs[..|fs| - 1]) && Runs(gs[..|gs| - 1])
    ensures Expand(fs[..|fs| - 1]) == Expand(gs[..|gs| - 1])
  {
    var f, g := fs[|fs| - 1], gs[|gs| - 1];
    var fi, gi := fs[..|fs| - 1], gs[..|gs| - 1];
    LastRunsAgree(fs, gs);
    assert fs == fi + [f] && gs == gi + [g];
    RunsSnoc(fi, f);
    RunsSnoc(gi, g);
    ExpandSnoc(fi, f);
    ExpandSnoc(gi, g);
    SplitEqual(Expand(fi), Pairs(f), Expand(gi), Pairs(g));
    PairsInjective(f, g);
  }

  /** The maximal runs of a list of pairs are unique: the `by_ids` calls are
      determined by the hits. */
  lemma {:induction false} RunsUnique(fs: seq<Fetch>, gs: seq<Fetch>)
    requires Runs(fs) && Runs(gs) && Expand(fs) == Expand(gs)
    ensures fs == gs
    decreases |fs|
  {
    if |fs| == 0 || |gs| == 0 {
      if |fs| > 0 { ExpandLast(fs); }
      if |gs| > 0 { ExpandLast(gs); }
    } else {
      LastRunsEqual(fs, gs);
      RunsUnique(fs[..|fs| - 1], gs[..|gs| - 1]);
      assert fs == fs[..|fs| - 1] + [fs[|fs| - 1]];
      assert gs == gs[..|gs| - 1] + [gs[|gs| - 1]];
    }
  }

  /** The routed calls of a list of labelled hits are unique. */
  lemma RoutedRunsUnique(fs: seq<Fetch>, gs: seq<Fetch>, labels: seq<(Option<ClassId>, int)>)
    requires RoutedRuns(fs, labels) && RoutedRuns(gs, labels)
    ensures fs == gs
  {
    if |labels| > 0 {
      RunsUnique(fs, gs);
    }
  }

  /** A session that finds every id, answering `by_ids` with one object
      per id in the order of the ids. */
  ghost predicate FindsEveryId(byIds: ByIds, lookup: (ClassId, int) -> Obj) {
    forall c: ClassId, ids: seq<int> :: byIds(Some(c), ids) == LookupAll(lookup, c, ids)
  }

  /** The object with each id, in the order of the ids. */
  function LookupAll(lookup: (ClassId, int) -> Obj, c: ClassId, ids: seq<int>): (objs: seq<Obj>)
    ensures |objs| == |ids| && forall k | 0 <= k < |ids| :: objs[k] == lookup(c, ids[k])
  {
    seq(|ids|, k requires 0 <= k < |ids| => lookup(c, ids[k]))
  }

  /** With a session that finds every id, the yielded objects follow the
      runs' (class, id) pairs one to one. */
  lemma {:induction false} YieldedFollowsExpand(byIds: ByIds, lookup: (ClassId, int) -> Obj, fs: seq<Fetch>)
    requires FindsEveryId(byIds, lookup)
    requires forall k | 0 <= k < |fs| :: fs[k].cls.Some?
    ensures |Yielded(byIds, fs)| == |Expand(fs)|
    ensures forall i | 0 <= i < |Expand(fs)| ::
      Expand(fs)[i].0.Some? && Yielded(byIds, fs)[i] == lookup(Expand(fs)[i].0.value, Expand(fs)[i].1)
    decreases |fs|
  {
    if |fs| > 0 {
      var init := fs[..|fs| - 1];
      var f := fs[|fs| - 1];
      YieldedFollowsExpand(byIds, lookup, init);
      var c := f.cls.value;
      var objs := byIds(Some(c), f.ids);
      assert objs == LookupAll(lookup, c, f.ids);
      var e, y := Expand(init), Yielded(byIds, init);
      assert Expand(fs) == e + Pairs(f);
      assert Yielded(byIds, fs) == y + objs;
      forall i | 0 <= i < |Expand(fs)|
        ensures Expand(fs)[i].0.Some? && Yielded(byIds, fs)[i] == lookup(Expand(fs)[i].0.value, Expand(fs)[i].1)
      {
        if i >= |e| {
          assert Expand(fs)[i] == Pairs(f)[i - |e|] && Yielded(byIds, fs)[i] == objs[i - |e|];
        } else {
          assert Expand(fs)[i] == e[i] && Yielded(byIds, fs)[i] == y[i];
        }
      }
    }
  }

  /** With a session that finds every id, the routed calls yield one object
      per hit, in hit order, looked up in the class its doc type names; with
      no hits, they yield what `by_ids(None, [])` returns. */
  lemma RoutedYieldsOnePerHit(byIds: ByIds, lookup: (ClassId, int) -> Obj, d2c: Dict<ClassId>,
                              hits: seq<Hit>, fs: seq<Fetch>)
    requires FindsEveryId(byIds, lookup)
    requires forall i | 0 <= i < |hits| :: hits[i].docType in Keys(d2c)
    requires RoutedRuns(fs, Labels(d2c, hits))
    ensures |hits| == 0 ==> Yielded(byIds, fs) == byIds(None, [])
    ensures |hits| > 0 ==> |Yielded(byIds, fs)| == |hits| && forall i | 0 <= i < |hits| ::
      Yielded(byIds, fs)[i] == lookup(Get(d2c, hits[i].docType).value, hits[i].id)
  {
    if |hits| == 0 {
      assert fs[..0] == [];
      assert Yielded(byIds, fs) == Yielded(byIds, []) + byIds(None, []);
    } else {
      YieldedFollowsExpand(byIds, lookup, fs);
      forall i | 0 <= i < |hits|
        ensures Yielded(byIds, fs)[i] == lookup(Get(d2c, hits[i].docType).value, hits[i].id)
      {
        assert Expand(fs)[i] == Labels(d2c, hits)[i];
      }
    }
  }

  /** `query(ctx, classes, query, ...)` over several classes: the search
      request sent, the `by_ids` calls made, and the objects yielded. */
  method QueryMany(h: Hierarchy, index: string, classes: seq<ClassId>, query: Query,
                   analyzeWildcard: bool, offset: int, limit: int,
                   search: Request -> seq<Hit>, byIds: ByIds)
    returns (sent: Option<Request>, calls: seq<Fetch>, result: Result<seq<Obj>>)
    requires Valid(h) && forall i | 0 <= i < |classes| :: Has(h, classes[i])
    ensures sent.Some? <==> DocTypes(h, classes).Ok?
    ensures sent.Some? ==> sent.value == SearchRequest(index, analyzeWildcard, DocTypes(h, classes).value.0, query, offset, limit)
    ensures result.Ok? ==> sent.Some? && var hits := search(sent.value); var d2c := DocTypes(h, classes).value.1;
      && (forall i | 0 <= i < |hits| :: hits[i].docType in Keys(d2c))
      && RoutedRuns(calls, Labels(d2c, hits))
      && result.value == Yielded(byIds, calls)
    ensures sent.Some? && result.Err? ==> exists i | 0 <= i < |search(sent.value)| ::
      search(sent.value)[i].docType !in Keys(DocTypes(h, classes).value.1)
    ensures result.Err? ==> calls == []
  {
    var dts := DocTypes(h, classes);
    if dts.Err? {
      return None, [], Err(dts.error);
    }
    var (docTypes, d2c) := dts.value;
    var req := SearchRequest(index, analyzeWildcard, docTypes, query, offset, limit);
    sent := Some(req);
    var hits := search(req);
    var fetches := Partition(d2c, hits);
    if fetches.Err? {
      return sent, [], Err(fetches.error);
    }
    calls := fetches.value;
    assert RoutedRuns(calls, Labels(d2c, hits));
    result := Ok(Yielded(byIds, calls));
  }

  // ---------------------------------------------------------------------
  // The single-class query of score/es/__init__.py

  const ClassClause: string := ") AND class:"

  /** `'((%s) AND class:%s)' % (query, type_name)`. */
  function Wrap(q: string, t: string): string {
    "((" + q + ClassClause + t + ")"
  }

  /** Recovers the user query from a wrapped one for the type name t. */
  function Unwrap(s: string, t: string): Option<string> {
    var tail := ClassClause + t + ")";
    if |s| >= 2 + |tail| && s[..2] == "((" && s[|s| - |tail|..] == tail
    then Some(s[2..|s| - |tail|])
    else None
  }

  /** Wrapping is undone by Unwrap, and Unwrap only accepts wrapped strings:
      the string sent is exactly the user query inside the class clause. */
  lemma WrapUnwrap(q: string, s: string, t: string)
    ensures Unwrap(Wrap(q, t), t) == Some(q)
    ensures Unwrap(s, t).Some? ==> Wrap(Unwrap(s, t).value, t) == s
  {
    var tail := ClassClause + t + ")";
    var w := Wrap(q, t);
    assert w == "((" + q + tail;
    assert w[..2] == "((";
    assert w[|w| - |tail|..] == tail;
    assert w[2..|w| - |tail|] == q;
    if Unwrap(s, t).Some? {
      assert s == s[..2] + s[2..|s| - |tail|] + s[|s| - |tail|..];
    }
  }

  /** `{'filtered': {'query': q, 'filter': {'term': {'class': type_name}}}}`. */
  function Filtered(q: Value, t: string): Value {
    Object([("filtered", Object([("query", q), ("filter", Object([("term", Object([("class", Str(t))]))]))]))])
  }

  /** The value of an object with the single key k. */
  function Only(v: Value, k: string): Option<Value> {
    if v.Object? && |v.fields| == 1 && v.fields[0].0 == k then Some(v.fields[0].1) else None
  }

  /** Reads the query and the class back out of a filtered query. */
  function Unfilter(v: Value): Option<(Value, string)> {
    match Only(v, "filtered")
    case None => None
    case Some(inner) =>
      if !(inner.Object? && |inner.fields| == 2 && inner.fields[0].0 == "query" && inner.fields[1].0 == "filter")
      then None
      else match Only(inner.fields[1].1, "term")
        case None => None
        case Some(term) =>
          match Only(term, "class")
          case Some(Str(t)) => Some((inner.fields[0].1, t))
          case _ => None
  }

  lemma FilteredUnfilter(q: Value, t: string, v: Value)
    ensures Unfilter(Filtered(q, t)) == Some((q, t))
    ensures Unfilter(v).Some? ==> Filtered(Unfilter(v).value.0, Unfilter(v).value.1) == v
  {
    if Unfilter(v).Some? {
      var inner := Only(v, "filtered").value;
      var term := Only(inner.fields[1].1, "term").value;
      var cls := Only(term, "class").value;
      assert term.fields == [("class", cls)];
      assert inner.fields[1].1.fields == [("term", term)];
      assert inner.fields == [("query", inner.fields[0].1), ("filter", inner.fields[1].1)];
      assert v.fields == [("filtered", inner)];
    }
  }

  /** The `es.search` call of the single-class `query`: the es class's doc
      type, and the query restricted to documents whose `class` list holds
      the requested class's own type name. */
  function LegacySearchRequest(h: Hierarchy, index: string, c: ClassId, query: Query,
                               analyzeWildcard: bool, offset: int, limit: int): (r: Result<Request>)
    requires Valid(h) && Has(h, c)
    ensures r.Ok? <==> EsRoot(h, c).Some?
    ensures r.Ok? ==>
      && r.value.Search? && r.value.docType == TypeName(h, EsRoot(h, c).value)
      && r.value.fields == "_id" && r.value.from == offset && r.value.size == limit
      && r.value.index == index && r.value.analyzeWildcard == analyzeWildcard
    ensures r.Ok? && query.Text? ==> r.value.query.Q? && Unwrap(r.value.query.text, TypeName(h, c)) == Some(query.text)
    ensures r.Ok? && query.Dsl? ==>
      && r.value.query.Body?
      && r.value.query.dsl.Object? && Get(r.value.query.dsl.fields, "query").Some?
      && Unfilter(Get(r.value.query.dsl.fields, "query").value) == Some((query.dsl, TypeName(h, c)))
  {
    match EsRoot(h, c)
    case None => Err(NoEsClass(c))
    case Some(e) =>
      var t := TypeName(h, c);
      WrapUnwrap(if query.Text? then query.text else "", "", t);
      FilteredUnfilter(if query.Dsl? then query.dsl else Null, t, Null);
      Ok(Search(index, analyzeWildcard, "_id", TypeName(h, e), offset, limit,
                match query
                case Text(q) => Q(Wrap(q, t))
                case Dsl(q) => Body(Object([("query", Filtered(q, t))]))))
  }

  /** The ids of the hits, in hit order. */
  function HitIds(hits: seq<Hit>): (ids: seq<int>)
    ensures |ids| == |hits| && forall i | 0 <= i < |hits| :: ids[i] == hits[i].id
  {
    seq(|hits|, i requires 0 <= i < |hits| => hits[i].id)
  }

  /** The single-class `query`: the search request sent, its one `by_ids`
      call over the hit ids for the requested class, and the objects
      yielded. */
  method LegacyQuery(h: Hierarchy, index: string, c: ClassId, query: Query,
                     analyzeWildcard: bool, offset: int, limit: int,
                     search: Request -> seq<Hit>, byIds: ByIds)
    returns (sent: Option<Request>, calls: seq<Fetch>, result: Result<seq<Obj>>)
    requires Valid(h) && Has(h, c)
    ensures sent.Some? <==> EsRoot(h, c).Some?
    ensures sent.Some? ==> LegacySearchRequest(h, index, c, query, analyzeWildcard, offset, limit) == Ok(sent.value)
    ensures sent.None? ==> calls == [] && result == Err(NoEsClass(c))
    ensures sent.Some? ==> var hits := search(sent.value);
      && |calls| == 1 && calls[0].cls == Some(c) && |calls[0].ids| == |hits|
      && (forall i | 0 <= i < |hits| :: calls[0].ids[i] == hits[i].id)
      && result == Ok(Yielded(byIds, calls))
  {
    var req := LegacySearchRequest(h, index, c, query, analyzeWildcard, offset, limit);
    if req.Err? {
      return None, [], Err(NoEsClass(c));
    }
    sent := Some(req.value);
    var ids := HitIds(search(req.value));
    calls := [Fetch(Some(c), ids)];
    result := Ok(byIds(Some(c), ids));
    assert calls[..0] == [];
    assert Yielded(byIds, []) == [];
    assert Yielded(byIds, calls) == byIds(Some(c), ids);
  }

  /** The class filter matches the documents of the class and of all its
      subclasses below the same es class: their `class` list holds the
      class's type name, and their `_type` is the doc type searched. */
  lemma ClassFilterMatches(h: Hierarchy, o: Obj, c: ClassId, e: ClassId, doc: Document)
    requires Valid(h) && Has(h, o.cls) && EsRoot(h, o.cls) == Some(e) && ToDocument(h, o) == Ok(doc)
    requires c in ChainTo(h, o.cls, e)
    ensures Get(doc, "class").Some? && Get(doc, "class").value.List?
    ensures Str(TypeName(h, c)) in Get(doc, "class").value.items
    ensures Get(doc, "_type") == Some(Str(TypeName(h, e)))
  {
    ChainTagged(h, o.cls, c, e);
    DocumentTemplate(h, o, e, doc);
  }

  /** Every class on the way from a class up to its es class is tagged. */
  lemma ChainTagged(h: Hierarchy, x: ClassId, c: ClassId, e: ClassId)
    requires Valid(h) && Has(h, x) && EsRoot(h, x) == Some(e)
    requires c in ChainTo(h, x, e)
    ensures Str(TypeName(h, c)) in Tags(h, ChainTo(h, x, e))
  {
    var chain := ChainTo(h, x, e);
    assert forall i | 0 <= i < |chain| :: chain[i] == Ancestors(h, x)[i];
    TagsContain(h, chain, c);
  }
}
