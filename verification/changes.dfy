/** Change capture around a database flush: `before_flush` records what to
    index and what to delete, `after_flush` replays it against the search
    backend (score/es/_init.py). */
module Changes {
  import opened Results
  import opened Values
  import opened TypeRegistry
  import opened Backend
  import opened Indexing

  /** What `before_flush` reads from the session: `session.new`,
      `session.dirty` and `session.deleted`. */
  datatype Session = Session(added: seq<Obj>, dirty: seq<Obj>, deleted: seq<Obj>)

  /** The two lists `before_flush` fills and `after_flush` replays. */
  datatype Pending = Pending(toInsert: seq<Obj>, toDelete: seq<Obj>)

  /** Every object the session reports belongs to a known class. */
  predicate Known(h: Hierarchy, xs: seq<Obj>) {
    forall i | 0 <= i < |xs| :: Has(h, xs[i].cls)
  }

  /** The two tests every captured object passes: it is among `instances`
      when that list is non-empty, and its class has an es class. */
  predicate Keep(h: Hierarchy, instances: seq<Obj>, o: Obj)
    requires Valid(h) && Has(h, o.cls)
  {
    (|instances| == 0 || o in instances) && EsRoot(h, o.cls).Some?
  }

  /** The objects of xs that pass Keep, in order. */
  function Select(h: Hierarchy, instances: seq<Obj>, xs: seq<Obj>): seq<Obj>
    requires Valid(h) && Known(h, xs)
  {
    if |xs| == 0 then []
    else
      var last := xs[|xs| - 1];
      Select(h, instances, xs[..|xs| - 1]) + (if Keep(h, instances, last) then [last] else [])
  }

  /** The dirty objects that `session.is_modified` reports as changed, in order. */
  function Modified(isModified: Obj -> bool, xs: seq<Obj>): seq<Obj> {
    if |xs| == 0 then []
    else
      var last := xs[|xs| - 1];
      Modified(isModified, xs[..|xs| - 1]) + (if isModified(last) then [last] else [])
  }

  lemma {:induction false} ModifiedKnown(h: Hierarchy, isModified: Obj -> bool, xs: seq<Obj>)
    requires Known(h, xs)
    ensures Known(h, Modified(isModified, xs))
    ensures forall o :: o in Modified(isModified, xs) <==> o in xs && isModified(o)
    decreases |xs|
  {
    if |xs| > 0 {
      var init := xs[..|xs| - 1];
      ModifiedKnown(h, isModified, init);
      assert xs == init + [xs[|xs| - 1]];
    }
  }

  /** The reference result of `before_flush`: new objects, then modified
      dirty ones, to insert; deleted ones to delete; all passing Keep. */
  function Capture(h: Hierarchy, s: Session, isModified: Obj -> bool, instances: seq<Obj>): Pending
    requires Valid(h) && Known(h, s.added) && Known(h, s.dirty) && Known(h, s.deleted)
  {
    ModifiedKnown(h, isModified, s.dirty);
    Pending(Select(h, instances, s.added) + Select(h, instances, Modified(isModified, s.dirty)),
            Select(h, instances, s.deleted))
  }

  /** One loop of `before_flush`: the objects of xs passing Keep, appended
      in order. */
  method SelectLoop(h: Hierarchy, instances: seq<Obj>, xs: seq<Obj>) returns (r: seq<Obj>)
    requires Valid(h) && Known(h, xs)
    ensures r == Select(h, instances, xs)
  {
    r := [];
    for i := 0 to |xs|
      invariant r == Select(h, instances, xs[..i])
    {
      assert xs[..i + 1][..i] == xs[..i];
      if Keep(h, instances, xs[i]) {
        r := r + [xs[i]];
      }
    }
    assert xs[..|xs|] == xs;
  }

  /** The dirty loop of `before_flush`: unmodified objects are skipped
      before the Keep tests. */
  method DirtyLoop(h: Hierarchy, isModified: Obj -> bool, instances: seq<Obj>, xs: seq<Obj>) returns (r: seq<Obj>)
    requires Valid(h) && Known(h, xs)
    ensures Known(h, Modified(isModified, xs))
    ensures r == Select(h, instances, Modified(isModified, xs))
  {
    r := [];
    for j := 0 to |xs|
      invariant Known(h, Modified(isModified, xs[..j]))
      invariant r == Select(h, instances, Modified(isModified, xs[..j]))
    {
      assert xs[..j + 1][..j] == xs[..j];
      ModifiedKnown(h, isModified, xs[..j + 1]);
      var m := Modified(isModified, xs[..j]);
      assert Modified(isModified, xs[..j + 1]) == m + (if isModified(xs[j]) then [xs[j]] else []);
      if !isModified(xs[j]) {
        assert m + [] == m;
        continue;
      }
      assert (m + [xs[j]])[..|m|] == m;
      assert Select(h, instances, m + [xs[j]])
        == Select(h, instances, m) + (if Keep(h, instances, xs[j]) then [xs[j]] else []);
      if Keep(h, instances, xs[j]) {
        r := r + [xs[j]];
      }
    }
    assert xs[..|xs|] == xs;
  }

  /** `before_flush(session, flush_context, instances)`: both lists start
      empty on every flush, so what was pending before plays no part. */
  method BeforeFlush(h: Hierarchy, s: Session, isModified: Obj -> bool, instances: seq<Obj>, previous: Pending)
    returns (p: Pending)
    requires Valid(h) && Known(h, s.added) && Known(h, s.dirty) && Known(h, s.deleted)
    ensures p == Capture(h, s, isModified, instances)
  {
    var fromNew := SelectLoop(h, instances, s.added);
    var fromDirty := DirtyLoop(h, isModified, instances, s.dirty);
    var toDelete := SelectLoop(h, instances, s.deleted);
    p := Pending(fromNew + fromDirty, toDelete);
  }

  /** An object is selected exactly when it occurs in xs and passes Keep. */
  lemma {:induction false} SelectMembers(h: Hierarchy, instances: seq<Obj>, xs: seq<Obj>, o: Obj)
    requires Valid(h) && Known(h, xs)
    ensures o in Select(h, instances, xs) <==> o in xs && Keep(h, instances, o)
    decreases |xs|
  {
    if |xs| > 0 {
      var init := xs[..|xs| - 1];
      SelectMembers(h, instances, init, o);
      assert xs == init + [xs[|xs| - 1]];
    }
  }

  /** What the two lists hold after `before_flush`. */
  lemma CaptureMembers(h: Hierarchy, s: Session, isModified: Obj -> bool, instances: seq<Obj>, o: Obj)
    requires Valid(h) && Known(h, s.added) && Known(h, s.dirty) && Known(h, s.deleted)
    ensures var p := Capture(h, s, isModified, instances);
      && (o in p.toInsert <==>
            (o in s.added || (o in s.dirty && isModified(o))) && Has(h, o.cls) && Keep(h, instances, o))
      && (o in p.toDelete <==> o in s.deleted && Has(h, o.cls) && Keep(h, instances, o))
  {
    ModifiedKnown(h, isModified, s.dirty);
    SelectMembers(h, instances, s.added, o);
    SelectMembers(h, instances, Modified(isModified, s.dirty), o);
    SelectMembers(h, instances, s.deleted, o);
  }

  /** One step of `after_flush`. */
  datatype Op = InsertOp(o: Obj) | DeleteOp(o: Obj)

  /** The steps of `after_flush`: every insert, then every delete. */
  function Ops(p: Pending): (ops: seq<Op>)
    ensures |ops| == |p.toInsert| + |p.toDelete|
    ensures forall i | 0 <= i < |p.toInsert| :: ops[i] == InsertOp(p.toInsert[i])
    ensures forall i | 0 <= i < |p.toDelete| :: ops[|p.toInsert| + i] == DeleteOp(p.toDelete[i])
    ensures forall i | 0 <= i < |ops| :: ops[i].InsertOp? <==> i < |p.toInsert|
  {
    seq(|p.toInsert|, i requires 0 <= i < |p.toInsert| => InsertOp(p.toInsert[i]))
      + seq(|p.toDelete|, i requires 0 <= i < |p.toDelete| => DeleteOp(p.toDelete[i]))
  }

  /** The request a step sends, or the error raised before sending it. */
  function RequestFor(h: Hierarchy, index: string, op: Op): (r: Result<Request>)
    requires Valid(h) && Has(h, op.o.cls)
    ensures r.Ok? && op.InsertOp? ==> r.value.IndexDoc?
    ensures r.Ok? && op.DeleteOp? ==> r.value.DeleteDoc?
  {
    match op
    case InsertOp(o) => Insert(h, index, o)
    case DeleteOp(o) => DeleteRequest(h, index, o)
  }

  /** A step together with the request it would send. */
  datatype Step = Step(op: Op, request: Result<Request>)

  function Steps(h: Hierarchy, index: string, ops: seq<Op>): (steps: seq<Step>)
    requires Valid(h) && forall i | 0 <= i < |ops| :: Has(h, ops[i].o.cls)
    ensures |steps| == |ops|
    ensures forall i | 0 <= i < |ops| :: steps[i] == Step(ops[i], RequestFor(h, index, ops[i]))
  {
    seq(|ops|, i requires 0 <= i < |ops| => Step(ops[i], RequestFor(h, index, ops[i])))
  }

  /** A reply a step survives: a delete ends as `delete` does, an insert
      only on an acknowledgement. */
  predicate Accepted(op: Op, reply: Reply) {
    if op.DeleteOp? then DeleteOutcome(reply).Ok? else reply == Acked
  }

  /** The step completes: its request can be built and is accepted. */
  predicate Succeeds(reply: Request -> Reply, s: Step) {
    s.request.Ok? && Accepted(s.op, reply(s.request.value))
  }

  /** The steps run in order; the first exception ends `after_flush`. */
  function Replay(reply: Request -> Reply, steps: seq<Step>): (res: (seq<Request>, Result<()>))
    decreases |steps|
  {
    if |steps| == 0 then ([], Ok(()))
    else match steps[0].request
      case Err(e) => ([], Err(e))
      case Ok(r) =>
        if !Accepted(steps[0].op, reply(r)) then ([r], Err(BackendFailure))
        else
          var rest := Replay(reply, steps[1..]);
          ([r] + rest.0, rest.1)
  }

  /** `after_flush(session, flush_context)`: the requests sent and how it
      ended. The pending lists are left as they are. */
  function AfterFlush(h: Hierarchy, index: string, reply: Request -> Reply, p: Pending)
    : (res: (seq<Request>, Result<()>))
    requires Valid(h) && Known(h, p.toInsert) && Known(h, p.toDelete)
  {
    Replay(reply, Steps(h, index, Ops(p)))
  }

  /** The requests sent are those of a prefix of the steps, in order; the
      replay succeeds exactly when every step does, and then every step's
      request was sent. */
  lemma {:induction false} ReplaySpec(reply: Request -> Reply, steps: seq<Step>)
    ensures var (sent, out) := Replay(reply, steps);
      && |sent| <= |steps|
      && (forall i | 0 <= i < |sent| :: steps[i].request == Ok(sent[i]))
      && (out.Ok? <==> forall i | 0 <= i < |steps| :: Succeeds(reply, steps[i]))
      && (out.Ok? ==> |sent| == |steps|)
    decreases |steps|
  {
    if |steps| > 0 && Succeeds(reply, steps[0]) {
      ReplaySpec(reply, steps[1..]);
      assert forall i | 1 <= i < |steps| :: steps[1..][i - 1] == steps[i];
    }
  }

  /** A failed replay stopped at its first failing step k: all earlier steps
      completed, and step k's request was sent only if it could be built. */
  lemma {:induction false} ReplayStops(reply: Request -> Reply, steps: seq<Step>)
    requires Replay(reply, steps).1.Err?
    ensures exists k | 0 <= k < |steps| ::
      && (forall i | 0 <= i < k :: Succeeds(reply, steps[i]))
      && !Succeeds(reply, steps[k])
      && |Replay(reply, steps).0| == k + (if steps[k].request.Ok? then 1 else 0)
    decreases |steps|
  {
    if Succeeds(reply, steps[0]) {
      var tail := steps[1..];
      ReplayStops(reply, tail);
      var k :| 0 <= k < |tail| &&
        (forall i | 0 <= i < k :: Succeeds(reply, tail[i])) &&
        !Succeeds(reply, tail[k]) &&
        |Replay(reply, tail).0| == k + (if tail[k].request.Ok? then 1 else 0);
      assert forall i | 1 <= i < k + 1 :: tail[i - 1] == steps[i];
      assert tail[k] == steps[k + 1];
    }
  }

  /** `after_flush` sends every index request before any delete request. */
  lemma InsertsBeforeDeletes(h: Hierarchy, index: string, reply: Request -> Reply, p: Pending)
    requires Valid(h) && Known(h, p.toInsert) && Known(h, p.toDelete)
    ensures var sent := AfterFlush(h, index, reply, p).0;
      forall i, j | 0 <= i < j < |sent| && sent[j].IndexDoc? :: sent[i].IndexDoc?
  {
    var ops := Ops(p);
    var steps := Steps(h, index, ops);
    ReplaySpec(reply, steps);
    var sent := AfterFlush(h, index, reply, p).0;
    forall i, j | 0 <= i < j < |sent| && sent[j].IndexDoc? ensures sent[i].IndexDoc? {
      assert RequestFor(h, index, ops[j]) == Ok(sent[j]);
      assert RequestFor(h, index, ops[i]) == Ok(sent[i]);
      assert ops[j].InsertOp?;
    }
  }
}
