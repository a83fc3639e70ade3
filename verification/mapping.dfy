/** The mapping `create` registers for each top-most es class (score/es/_init.py). */
module Mapping {
  import opened Results
  import opened Dict
  import opened Values
  import opened TypeRegistry

  /** The field definition forced onto `class` and `concrete_class`: an
      unanalysed string. */
  const NotAnalyzed: Definition := [("type", Plain(Str("string"))), ("index", Plain(Str("not_analyzed")))]

  /** `mapping[key]`: the merged properties and `_source.enabled`. */
  datatype TypeMapping = TypeMapping(properties: Dict<Definition>, sourceEnabled: bool)

  /** The member definitions `recurse` copies, each without `__convert__`. */
  function Stripped(ms: seq<(string, Definition)>): (r: seq<(string, Definition)>)
    ensures |r| == |ms|
    ensures forall i | 0 <= i < |ms| :: r[i].0 == ms[i].0 && Get(r[i].1, "__convert__") == None
    ensures forall i | 0 <= i < |ms| :: forall k | k != "__convert__" :: Get(r[i].1, k) == Get(ms[i].1, k)
  {
    seq(|ms|, i requires 0 <= i < |ms| => (ms[i].0, Remove(ms[i].1, "__convert__")))
  }

  /** The declarations the walk from `e` visits: every class of the subtree
      of `e`, in depth-first order. */
  function SubtreeMembers(h: Hierarchy, e: ClassId): seq<(string, Definition)>
    requires Valid(h) && Has(h, e)
  {
    MembersOf(h, Subtree(h, e))
  }

  /** `mapping[key]['properties']` once the walk and the two forced
      assignments are done. */
  function Properties(h: Hierarchy, e: ClassId): (r: Dict<Definition>)
    requires Valid(h) && Has(h, e)
    ensures Distinct(r)
    ensures Get(r, "class") == Some(NotAnalyzed) && Get(r, "concrete_class") == Some(NotAnalyzed)
  {
    var merged := PutAll([], Stripped(SubtreeMembers(h, e)));
    PutAllDistinct([], Stripped(SubtreeMembers(h, e)));
    PutDistinct(merged, "class", NotAnalyzed);
    PutDistinct(Put(merged, "class", NotAnalyzed), "concrete_class", NotAnalyzed);
    Put(Put(merged, "class", NotAnalyzed), "concrete_class", NotAnalyzed)
  }

  /** The mapping sent for the es class `e`: `_source` is always disabled. */
  function MappingFor(h: Hierarchy, e: ClassId): (m: TypeMapping)
    requires Valid(h) && Has(h, e)
    ensures !m.sourceEnabled
    ensures Get(m.properties, "class") == Some(NotAnalyzed)
    ensures Get(m.properties, "concrete_class") == Some(NotAnalyzed)
  {
    TypeMapping(Properties(h, e), false)
  }

  /** A member other than the two forced ones is defined as at its last
      visit in the walk, minus `__convert__`. */
  lemma MappingLastWins(h: Hierarchy, e: ClassId, m: string, i: nat)
    requires Valid(h) && Has(h, e)
    requires m != "class" && m != "concrete_class"
    requires LastAt(SubtreeMembers(h, e), m, i)
    ensures Get(MappingFor(h, e).properties, m) == Some(Remove(SubtreeMembers(h, e)[i].1, "__convert__"))
  {
    var ms := SubtreeMembers(h, e);
    var ps := Stripped(ms);
    assert LastAt(ps, m, i);
    PutAllGet([], ps, m);
  }

  /** Merging the stripped definitions defines exactly the visited members. */
  lemma MergedKeys(ms: seq<(string, Definition)>, m: string)
    ensures m in Keys(PutAll([], Stripped(ms))) <==> m in Keys(ms)
  {
    var ps := Stripped(ms);
    PutAllKeys([], ps, m);
    if m in Keys(ms) {
      var i :| 0 <= i < |ms| && Keys(ms)[i] == m;
      assert ps[i].0 == m;
    }
    if exists i | 0 <= i < |ps| :: ps[i].0 == m {
      var i :| 0 <= i < |ps| && ps[i].0 == m;
      assert Keys(ms)[i] == m;
    }
  }

  /** The properties are exactly the visited members plus the two forced
      ones. */
  lemma MappingKeys(h: Hierarchy, e: ClassId, m: string)
    requires Valid(h) && Has(h, e)
    ensures m in Keys(MappingFor(h, e).properties) <==>
      m == "class" || m == "concrete_class" || m in Keys(SubtreeMembers(h, e))
  {
    var merged := PutAll([], Stripped(SubtreeMembers(h, e)));
    MergedKeys(SubtreeMembers(h, e), m);
    var once := Put(merged, "class", NotAnalyzed);
    assert m in Keys(once) <==> m == "class" || m in Keys(merged);
    assert m in Keys(Put(once, "concrete_class", NotAnalyzed)) <==> m == "concrete_class" || m in Keys(once);
  }

  /** No definition in a mapping carries `__convert__`. */
  lemma MappingHasNoConverter(h: Hierarchy, e: ClassId, m: string)
    requires Valid(h) && Has(h, e)
    requires m in Keys(MappingFor(h, e).properties)
    ensures Get(Get(MappingFor(h, e).properties, m).value, "__convert__") == None
  {
    if m == "class" || m == "concrete_class" {
      assert Get(MappingFor(h, e).properties, m) == Some(NotAnalyzed);
      NotAnalyzedPlain();
    } else {
      MemberHasNoConverter(h, e, m);
    }
  }

  lemma NotAnalyzedPlain()
    ensures Get(NotAnalyzed, "__convert__") == None
  {
    assert Keys(NotAnalyzed) == ["type", "index"];
  }

  lemma MemberHasNoConverter(h: Hierarchy, e: ClassId, m: string)
    requires Valid(h) && Has(h, e)
    requires m != "class" && m != "concrete_class"
    requires m in Keys(MappingFor(h, e).properties)
    ensures Get(Get(MappingFor(h, e).properties, m).value, "__convert__") == None
  {
    var ms := SubtreeMembers(h, e);
    MappingKeys(h, e, m);
    var i :| 0 <= i < |ms| && Keys(ms)[i] == m;
    LastOccurrence(ms, m, i);
    var j :| i <= j < |ms| && LastAt(ms, m, j);
    MappingLastWins(h, e, m, j);
  }

  /** Every member an indexable class in xs exposes shows up in MembersOf. */
  lemma {:induction false} MembersOfContains(h: Hierarchy, xs: seq<ClassId>, j: int, m: string)
    requires Valid(h) && forall i | 0 <= i < |xs| :: Has(h, xs[i])
    requires 0 <= j < |xs| && Indexable(h, xs[j]) && m in Keys(EffectiveDecl(h, xs[j]).value)
    ensures m in Keys(MembersOf(h, xs))
    decreases |xs|
  {
    var head := if Indexable(h, xs[0]) then EffectiveDecl(h, xs[0]).value else [];
    var rest := MembersOf(h, xs[1..]);
    assert MembersOf(h, xs) == head + rest;
    if j == 0 {
      var k :| 0 <= k < |head| && Keys(head)[k] == m;
      assert Keys(head + rest)[k] == m;
    } else {
      assert xs[1..][j - 1] == xs[j];
      MembersOfContains(h, xs[1..], j - 1, m);
      var k :| 0 <= k < |rest| && Keys(rest)[k] == m;
      assert Keys(head + rest)[|head| + k] == m;
    }
  }

  /** Every member exposed anywhere in the subtree of `e` gets a property. */
  lemma MappingCoversSubtree(h: Hierarchy, e: ClassId, x: ClassId, m: string)
    requires Valid(h) && Has(h, e) && x in Subtree(h, e) && Indexable(h, x)
    requires m in Keys(EffectiveDecl(h, x).value)
    ensures m in Keys(MappingFor(h, e).properties)
  {
    var s := Subtree(h, e);
    var j :| 0 <= j < |s| && s[j] == x;
    MembersOfContains(h, s, j, m);
    MappingKeys(h, e, m);
  }
}
