/** The class graph of the database models and the resolution of each class
    to its top-most es class (`get_es_class`, `classes` in score/es/_init.py). */
module TypeRegistry {
  import opened Results
  import opened Dict
  import opened Values

  /** Classes are numbered in definition order, so a parent always has a
      smaller number than its subclasses. */
  type ClassId = nat

  /** A `__convert__` callable, tagged with the number of arguments it takes. */
  datatype Converter =
    | ValueOnly(apply1: Value -> Value)
    | ValueAndObject(apply2: (Value, Obj) -> Value)

  /** One entry of a field definition: a mapping setting such as
      `'type': 'string'`, or the value under `'__convert__'`. */
  datatype Setting = Plain(v: Value) | Convert(conv: Converter)

  /** The definition of one member, e.g. `{'type': 'string', '__convert__': f}`. */
  type Definition = Dict<Setting>

  /** A class's own `__score_es__` dictionary: member name to definition. */
  type Decl = Dict<Definition>

  /** `__score_db__['type_name']`, `__score_db__['parent']` and the class's own
      `__score_es__`, if it declares one. */
  datatype ClassInfo = ClassInfo(typeName: string, parent: Option<ClassId>, decl: Option<Decl>)

  /** Every database class, and `base`, the declarative base the subclass walk starts from. */
  datatype Hierarchy = Hierarchy(classes: seq<ClassInfo>, base: ClassId)

  predicate Valid(h: Hierarchy) {
    && h.base < |h.classes|
    && h.classes[h.base].parent.None?
    && forall c | 0 <= c < |h.classes| :: h.classes[c].parent.Some? ==> h.classes[c].parent.value < c
  }

  predicate Has(h: Hierarchy, c: ClassId) {
    c < |h.classes|
  }

  function Parent(h: Hierarchy, c: ClassId): (p: Option<ClassId>)
    requires Valid(h) && Has(h, c)
    ensures p.Some? ==> p.value < c
  {
    h.classes[c].parent
  }

  function TypeName(h: Hierarchy, c: ClassId): string
    requires Has(h, c)
  {
    h.classes[c].typeName
  }

  /** The class itself carries a `__score_es__` of its own. */
  predicate Declares(h: Hierarchy, c: ClassId)
    requires Has(h, c)
  {
    h.classes[c].decl.Some?
  }

  /** What `cls.__score_es__` evaluates to: the class's own declaration or,
      through attribute inheritance, the nearest declaring ancestor's. */
  function EffectiveDecl(h: Hierarchy, c: ClassId): Option<Decl>
    requires Valid(h) && Has(h, c)
    decreases c
  {
    if Declares(h, c) then h.classes[c].decl
    else match Parent(h, c)
      case None => None
      case Some(p) => EffectiveDecl(h, p)
  }

  /** `hasattr(cls, '__score_es__')`. */
  predicate Indexable(h: Hierarchy, c: ClassId)
    requires Valid(h) && Has(h, c)
  {
    EffectiveDecl(h, c).Some?
  }

  /** The parent chain from c up to its parentless root, both included. */
  function Ancestors(h: Hierarchy, c: ClassId): (a: seq<ClassId>)
    requires Valid(h) && Has(h, c)
    ensures |a| >= 1 && a[0] == c
    ensures forall i | 0 <= i < |a| :: Has(h, a[i])
    ensures forall i | 0 <= i < |a| - 1 :: Parent(h, a[i]) == Some(a[i + 1])
    ensures Parent(h, a[|a| - 1]).None?
    decreases c
  {
    match Parent(h, c)
    case None => [c]
    case Some(p) => [c] + Ancestors(h, p)
  }

  /** Some class of the chain a carries a declaration of its own. */
  ghost predicate DeclaredOnChain(h: Hierarchy, a: seq<ClassId>)
    requires forall k | 0 <= k < |a| :: Has(h, a[k])
  {
    exists i | 0 <= i < |a| :: Declares(h, a[i])
  }

  /** `hasattr` sees a declaration exactly when the class or an ancestor makes one. */
  lemma {:induction false} IndexableIffDeclaringAncestor(h: Hierarchy, c: ClassId)
    requires Valid(h) && Has(h, c)
    ensures Indexable(h, c) <==> DeclaredOnChain(h, Ancestors(h, c))
    decreases c
  {
    var a := Ancestors(h, c);
    if Declares(h, c) {
      assert Indexable(h, c) && Declares(h, a[0]);
      assert DeclaredOnChain(h, a);
    } else {
      match Parent(h, c)
      case None =>
        assert a == [c] && !Indexable(h, c);
        forall i | 0 <= i < |a| ensures !Declares(h, a[i]) {
          assert a[i] == c;
        }
        assert !DeclaredOnChain(h, a);
      case Some(p) =>
        IndexableIffDeclaringAncestor(h, p);
        var b := Ancestors(h, p);
        assert a == [c] + b;
        assert Indexable(h, c) == Indexable(h, p);
        if Indexable(h, p) {
          var i :| 0 <= i < |b| && Declares(h, b[i]);
          assert a[i + 1] == b[i];
          assert DeclaredOnChain(h, a);
        } else {
          forall i | 0 <= i < |a| ensures !Declares(h, a[i]) {
            if i > 0 {
              assert a[i] == b[i - 1];
            }
          }
          assert !DeclaredOnChain(h, a);
        }
    }
  }

  /** The loop of `get_es_class`: while the current class has a parent,
      remember it if it is indexable, then step up. The parentless root
      itself is never examined here. */
  function Climb(h: Hierarchy, cur: ClassId, best: Option<ClassId>): Option<ClassId>
    requires Valid(h) && Has(h, cur)
    decreases cur
  {
    match Parent(h, cur)
    case None => best
    case Some(p) => Climb(h, p, if Indexable(h, cur) then Some(cur) else best)
  }

  /** Position j is the highest indexable one of the chain a, its last
      element (the parentless root) left out. */
  ghost predicate TopIndexableAt(h: Hierarchy, a: seq<ClassId>, j: int)
    requires Valid(h) && forall k | 0 <= k < |a| :: Has(h, a[k])
  {
    0 <= j < |a| - 1 && Indexable(h, a[j]) && forall k | j < k < |a| - 1 :: !Indexable(h, a[k])
  }

  ghost predicate NoneIndexableBelowRoot(h: Hierarchy, a: seq<ClassId>)
    requires Valid(h) && forall k | 0 <= k < |a| :: Has(h, a[k])
  {
    forall k | 0 <= k < |a| - 1 :: !Indexable(h, a[k])
  }

  /** Steps of the climb: facts about the chain of the parent carry over to
      the chain of the child, shifted by one position. */
  lemma ChainShiftTop(h: Hierarchy, c: ClassId, p: ClassId, j: int)
    requires Valid(h) && Has(h, c) && Parent(h, c) == Some(p)
    requires TopIndexableAt(h, Ancestors(h, p), j)
    ensures TopIndexableAt(h, Ancestors(h, c), j + 1)
    ensures Ancestors(h, c)[j + 1] == Ancestors(h, p)[j]
  {
    var a, b := Ancestors(h, c), Ancestors(h, p);
    assert a == [c] + b;
    forall k | j + 1 < k < |a| - 1 ensures !Indexable(h, a[k]) {
      assert a[k] == b[k - 1];
    }
  }

  lemma ChainShiftNone(h: Hierarchy, c: ClassId, p: ClassId)
    requires Valid(h) && Has(h, c) && Parent(h, c) == Some(p)
    requires NoneIndexableBelowRoot(h, Ancestors(h, p))
    ensures Indexable(h, c) ==> TopIndexableAt(h, Ancestors(h, c), 0)
    ensures !Indexable(h, c) ==> NoneIndexableBelowRoot(h, Ancestors(h, c))
  {
    var a, b := Ancestors(h, c), Ancestors(h, p);
    assert a == [c] + b;
    forall k | 0 < k < |a| - 1 ensures !Indexable(h, a[k]) {
      assert a[k] == b[k - 1];
    }
  }

  /** res is the highest indexable class of the chain a below its root or,
      when there is none, the fallback best. */
  ghost predicate HighestOrFallback(h: Hierarchy, a: seq<ClassId>, best: Option<ClassId>, res: Option<ClassId>)
    requires Valid(h) && forall k | 0 <= k < |a| :: Has(h, a[k])
  {
    || (NoneIndexableBelowRoot(h, a) && res == best)
    || (exists j :: TopIndexableAt(h, a, j) && res == Some(a[j]))
  }

  /** The climb ends on the highest indexable class of the chain below its
      root, falling back to what it was given when there is none. */
  lemma {:induction false} ClimbHighest(h: Hierarchy, cur: ClassId, best: Option<ClassId>)
    requires Valid(h) && Has(h, cur)
    ensures HighestOrFallback(h, Ancestors(h, cur), best, Climb(h, cur, best))
    decreases cur
  {
    match Parent(h, cur)
    case None =>
      assert Ancestors(h, cur) == [cur];
      assert NoneIndexableBelowRoot(h, Ancestors(h, cur)) && Climb(h, cur, best) == best;
    case Some(p) =>
      var best' := if Indexable(h, cur) then Some(cur) else best;
      ClimbHighest(h, p, best');
      var a, b := Ancestors(h, cur), Ancestors(h, p);
      assert Climb(h, cur, best) == Climb(h, p, best');
      if j :| TopIndexableAt(h, b, j) && Climb(h, p, best') == Some(b[j]) {
        ChainShiftTop(h, cur, p, j);
        assert TopIndexableAt(h, a, j + 1) && Climb(h, cur, best) == Some(a[j + 1]);
      } else {
        assert NoneIndexableBelowRoot(h, b) && Climb(h, p, best') == best';
        ChainShiftNone(h, cur, p);
        if Indexable(h, cur) {
          assert TopIndexableAt(h, a, 0) && Climb(h, cur, best) == Some(a[0]);
        } else {
          assert best' == best;
          assert NoneIndexableBelowRoot(h, a) && Climb(h, cur, best) == best;
        }
      }
  }

  /** Position i of the parent chain a may be returned by `get_es_class`:
      the class there is indexable, and it is either the starting class or
      not the parentless root. */
  ghost predicate Candidate(h: Hierarchy, a: seq<ClassId>, i: int)
    requires Valid(h) && forall k | 0 <= k < |a| :: Has(h, a[k])
  {
    0 <= i < |a| && Indexable(h, a[i]) && (i == 0 || i < |a| - 1)
  }

  /** Position i holds the highest candidate of the chain a. */
  ghost predicate HighestCandidate(h: Hierarchy, a: seq<ClassId>, i: int)
    requires Valid(h) && forall k | 0 <= k < |a| :: Has(h, a[k])
  {
    Candidate(h, a, i) && forall j | i < j < |a| :: !Candidate(h, a, j)
  }

  /** `get_es_class` without its cache. */
  function EsRoot(h: Hierarchy, c: ClassId): (res: Option<ClassId>)
    requires Valid(h) && Has(h, c)
    ensures res.Some? ==> Has(h, res.value) && res.value in Ancestors(h, c) && Indexable(h, res.value)
  {
    var res := Climb(h, c, if Indexable(h, c) then Some(c) else None);
    ClimbCandidates(h, c);
    res
  }

  /** `get_es_class` returns the highest candidate on the parent chain, or
      None when there is none. */
  lemma EsRootIsHighestCandidate(h: Hierarchy, c: ClassId)
    requires Valid(h) && Has(h, c)
    ensures HighestCandidateResult(h, Ancestors(h, c), EsRoot(h, c))
  {
    ClimbCandidates(h, c);
  }

  /** res is None exactly when the chain a has no candidate, and otherwise
      the class at its highest candidate position. */
  ghost predicate HighestCandidateResult(h: Hierarchy, a: seq<ClassId>, res: Option<ClassId>)
    requires Valid(h) && forall k | 0 <= k < |a| :: Has(h, a[k])
  {
    && (res.None? <==> forall i | 0 <= i < |a| :: !Candidate(h, a, i))
    && (res.Some? ==> exists i | 0 <= i < |a| :: res.value == a[i] && HighestCandidate(h, a, i))
  }

  lemma ClimbCandidates(h: Hierarchy, c: ClassId)
    requires Valid(h) && Has(h, c)
    ensures HighestCandidateResult(h, Ancestors(h, c), Climb(h, c, if Indexable(h, c) then Some(c) else None))
  {
    var a := Ancestors(h, c);
    var init := if Indexable(h, c) then Some(c) else None;
    var res := Climb(h, c, init);
    ClimbHighest(h, c, init);
    if j :| TopIndexableAt(h, a, j) && res == Some(a[j]) {
      assert HighestCandidate(h, a, j);
      assert res.value == a[j];
    } else {
      assert NoneIndexableBelowRoot(h, a) && res == init;
      forall i | 0 < i < |a| ensures !Candidate(h, a, i) {
      }
      if Indexable(h, c) {
        assert HighestCandidate(h, a, 0);
        assert res.Some? && res.value == a[0];
      } else {
        assert !Candidate(h, a, 0);
        assert res.None?;
      }
    }
    assert HighestCandidateResult(h, a, res);
  }

  /** `get_es_class` with its `_es_classes` cache: every cached entry is the
      value the walk would compute. */
  predicate EsCacheSound(h: Hierarchy, cache: map<ClassId, Option<ClassId>>)
    requires Valid(h)
  {
    forall k | k in cache :: Has(h, k) && cache[k] == EsRoot(h, k)
  }

  /** `get_es_class(cls)`: answers from the cache when it can, otherwise walks
      the chain and records the answer. Returns the answer and the new cache. */
  function GetEsClass(h: Hierarchy, cache: map<ClassId, Option<ClassId>>, c: ClassId)
    : (res: (Option<ClassId>, map<ClassId, Option<ClassId>>))
    requires Valid(h) && Has(h, c) && EsCacheSound(h, cache)
    ensures res.0 == EsRoot(h, c)
    ensures EsCacheSound(h, res.1) && c in res.1
    ensures res.1.Keys == cache.Keys + {c}
    ensures c in cache ==> res.1 == cache
  {
    if c in cache then (cache[c], cache)
    else
      var r := EsRoot(h, c);
      (r, cache[c := r])
  }

  /** The classes `recurse` visits from c: c itself, then the subtree of each
      direct subclass in definition order (the order of `__subclasses__()`). */
  function Subtree(h: Hierarchy, c: ClassId): (s: seq<ClassId>)
    requires Valid(h) && Has(h, c)
    ensures |s| >= 1 && s[0] == c
    ensures forall i | 0 <= i < |s| :: Has(h, s[i])
    decreases |h.classes| - c, |h.classes| - c
  {
    [c] + SubtreesFrom(h, c, c + 1)
  }

  /** The subtrees of the direct subclasses of c numbered k or higher. */
  function SubtreesFrom(h: Hierarchy, c: ClassId, k: ClassId): (s: seq<ClassId>)
    requires Valid(h) && Has(h, c) && c < k <= |h.classes|
    ensures forall i | 0 <= i < |s| :: Has(h, s[i])
    decreases |h.classes| - c, |h.classes| - k
  {
    if k == |h.classes| then []
    else (if Parent(h, k) == Some(c) then Subtree(h, k) else []) + SubtreesFrom(h, c, k + 1)
  }

  /** The `recurse` of `classes()`: an indexable class is collected and its
      subclasses are not visited; otherwise the walk goes on into them. */
  function Collect(h: Hierarchy, c: ClassId): (s: seq<ClassId>)
    requires Valid(h) && Has(h, c)
    ensures forall i | 0 <= i < |s| :: Has(h, s[i])
    decreases |h.classes| - c, |h.classes| - c
  {
    if Indexable(h, c) then [c] else CollectFrom(h, c, c + 1)
  }

  function CollectFrom(h: Hierarchy, c: ClassId, k: ClassId): (s: seq<ClassId>)
    requires Valid(h) && Has(h, c) && c < k <= |h.classes|
    ensures forall i | 0 <= i < |s| :: Has(h, s[i])
    decreases |h.classes| - c, |h.classes| - k
  {
    if k == |h.classes| then []
    else (if Parent(h, k) == Some(c) then Collect(h, k) else []) + CollectFrom(h, c, k + 1)
  }

  /** `classes()` without its cache. */
  function Classes(h: Hierarchy): (s: seq<ClassId>)
    requires Valid(h)
    ensures forall i | 0 <= i < |s| :: Has(h, s[i])
  {
    Collect(h, h.base)
  }

  /** A top-most es class: indexable, with no indexable parent. */
  predicate IsTop(h: Hierarchy, x: ClassId)
    requires Valid(h) && Has(h, x)
  {
    Indexable(h, x) && (Parent(h, x).None? || !Indexable(h, Parent(h, x).value))
  }

  /** The top-most es classes of s, in the order of s. */
  function Tops(h: Hierarchy, s: seq<ClassId>): (t: seq<ClassId>)
    requires Valid(h) && forall i | 0 <= i < |s| :: Has(h, s[i])
    ensures forall i | 0 <= i < |t| :: Has(h, t[i])
  {
    if |s| == 0 then []
    else (if IsTop(h, s[0]) then [s[0]] else []) + Tops(h, s[1..])
  }

  lemma {:induction false} TopsConcat(h: Hierarchy, s: seq<ClassId>, t: seq<ClassId>)
    requires Valid(h) && forall i | 0 <= i < |s| :: Has(h, s[i])
    requires forall i | 0 <= i < |t| :: Has(h, t[i])
    ensures Tops(h, s + t) == Tops(h, s) + Tops(h, t)
    decreases |s|
  {
    if |s| == 0 {
      assert s + t == t;
    } else {
      assert (s + t)[0] == s[0];
      assert (s + t)[1..] == s[1..] + t;
      TopsConcat(h, s[1..], t);
    }
  }

  /** A subclass of an indexable class is indexable and not top-most. */
  lemma ChildOfIndexable(h: Hierarchy, c: ClassId, k: ClassId)
    requires Valid(h) && Has(h, k) && Parent(h, k) == Some(c) && Indexable(h, c)
    ensures Indexable(h, k) && !IsTop(h, k)
    ensures Tops(h, [k]) == []
  {
  }

  /** Below an indexable class there is no top-most es class: every class
      there has an indexable parent. */
  lemma {:induction false} NoTopsBelow(h: Hierarchy, c: ClassId, k: ClassId)
    requires Valid(h) && Has(h, c) && c < k <= |h.classes| && Indexable(h, c)
    ensures Tops(h, SubtreesFrom(h, c, k)) == []
    decreases |h.classes| - c, |h.classes| - k
  {
    if k < |h.classes| {
      var here := if Parent(h, k) == Some(c) then Subtree(h, k) else [];
      assert SubtreesFrom(h, c, k) == here + SubtreesFrom(h, c, k + 1);
      TopsConcat(h, here, SubtreesFrom(h, c, k + 1));
      NoTopsBelow(h, c, k + 1);
      if Parent(h, k) == Some(c) {
        ChildOfIndexable(h, c, k);
        TopsConcat(h, [k], SubtreesFrom(h, k, k + 1));
        NoTopsBelow(h, k, k + 1);
      } else {
        assert Tops(h, here) == [];
      }
    }
  }

  /** The pruned walk of `classes()` collects exactly the top-most es classes
      of the full subclass tree, in depth-first order. */
  lemma {:induction false} CollectIsTops(h: Hierarchy, c: ClassId)
    requires Valid(h) && Has(h, c)
    requires Parent(h, c).None? || !Indexable(h, Parent(h, c).value)
    ensures Collect(h, c) == Tops(h, Subtree(h, c))
    decreases |h.classes| - c, |h.classes| - c
  {
    TopsConcat(h, [c], SubtreesFrom(h, c, c + 1));
    if Indexable(h, c) {
      NoTopsBelow(h, c, c + 1);
    } else {
      CollectFromIsTops(h, c, c + 1);
    }
  }

  lemma {:induction false} CollectFromIsTops(h: Hierarchy, c: ClassId, k: ClassId)
    requires Valid(h) && Has(h, c) && c < k <= |h.classes| && !Indexable(h, c)
    ensures CollectFrom(h, c, k) == Tops(h, SubtreesFrom(h, c, k))
    decreases |h.classes| - c, |h.classes| - k
  {
    if k < |h.classes| {
      var here := if Parent(h, k) == Some(c) then Subtree(h, k) else [];
      TopsConcat(h, here, SubtreesFrom(h, c, k + 1));
      CollectFromIsTops(h, c, k + 1);
      if Parent(h, k) == Some(c) {
        CollectIsTops(h, k);
      }
    }
  }

  /** `classes()` with its `_classes` cache. */
  function GetClasses(h: Hierarchy, cache: Option<seq<ClassId>>): (res: (seq<ClassId>, Option<seq<ClassId>>))
    requires Valid(h) && (cache.Some? ==> cache.value == Classes(h))
    ensures res.0 == Tops(h, Subtree(h, h.base))
    ensures res.1 == Some(res.0)
  {
    CollectIsTops(h, h.base);
    match cache
    case Some(cs) => (cs, cache)
    case None => var cs := Classes(h); (cs, Some(cs))
  }

  /** The member declarations `hasattr`/`__score_es__` expose along xs, in
      order: for each indexable class, its effective declaration. */
  function MembersOf(h: Hierarchy, xs: seq<ClassId>): seq<(string, Definition)>
    requires Valid(h) && forall i | 0 <= i < |xs| :: Has(h, xs[i])
  {
    if |xs| == 0 then []
    else (if Indexable(h, xs[0]) then EffectiveDecl(h, xs[0]).value else []) + MembersOf(h, xs[1..])
  }

  /** The chain of a class further up a chain is the rest of that chain. */
  lemma {:induction false} AncestorsSuffix(h: Hierarchy, x: ClassId, j: int)
    requires Valid(h) && Has(h, x) && 0 <= j < |Ancestors(h, x)|
    ensures Ancestors(h, Ancestors(h, x)[j]) == Ancestors(h, x)[j..]
    decreases x
  {
    if j > 0 {
      var p := Parent(h, x).value;
      assert Ancestors(h, x) == [x] + Ancestors(h, p);
      assert Ancestors(h, x)[j] == Ancestors(h, p)[j - 1];
      assert Ancestors(h, x)[j..] == Ancestors(h, p)[j - 1..];
      AncestorsSuffix(h, p, j - 1);
    }
  }

  /** Declarations are inherited: a class below an indexable class is indexable. */
  lemma {:induction false} InheritsIndexable(h: Hierarchy, x: ClassId, j: int)
    requires Valid(h) && Has(h, x) && 0 <= j < |Ancestors(h, x)|
    requires Indexable(h, Ancestors(h, x)[j])
    ensures Indexable(h, x)
    decreases x
  {
    if j > 0 {
      var p := Parent(h, x).value;
      assert Ancestors(h, x)[j] == Ancestors(h, p)[j - 1];
      InheritsIndexable(h, p, j - 1);
    }
  }

  /** Above a top-most es class nothing is indexable. */
  lemma TopHasNoIndexableAncestor(h: Hierarchy, x: ClassId)
    requires Valid(h) && Has(h, x) && IsTop(h, x)
    ensures forall i | 1 <= i < |Ancestors(h, x)| :: !Indexable(h, Ancestors(h, x)[i])
  {
    var a := Ancestors(h, x);
    forall i | 1 <= i < |a| ensures !Indexable(h, a[i]) {
      var p := Parent(h, x).value;
      assert a == [x] + Ancestors(h, p);
      assert a[i] == Ancestors(h, p)[i - 1];
      if Indexable(h, a[i]) {
        InheritsIndexable(h, p, i - 1);
      }
    }
  }

  /** A class is in the subclass tree of c exactly when c is on its parent chain. */
  lemma {:induction false} SubtreeHasAncestor(h: Hierarchy, c: ClassId, x: ClassId)
    requires Valid(h) && Has(h, c) && x in Subtree(h, c)
    ensures Has(h, x) && c in Ancestors(h, x)
    decreases |h.classes| - c, |h.classes| - c
  {
    if x != c {
      SubtreesFromHaveAncestor(h, c, c + 1, x);
    }
  }

  lemma {:induction false} SubtreesFromHaveAncestor(h: Hierarchy, c: ClassId, k: ClassId, x: ClassId)
    requires Valid(h) && Has(h, c) && c < k <= |h.classes| && x in SubtreesFrom(h, c, k)
    ensures Has(h, x) && c in Ancestors(h, x)
    decreases |h.classes| - c, |h.classes| - k
  {
    var here := if Parent(h, k) == Some(c) then Subtree(h, k) else [];
    if x in here {
      SubtreeHasAncestor(h, k, x);
      var a := Ancestors(h, x);
      var i :| 0 <= i < |a| && a[i] == k;
      assert a[i + 1] == c;
    } else {
      SubtreesFromHaveAncestor(h, c, k + 1, x);
    }
  }

  lemma {:induction false} SubtreeInSubtreesFrom(h: Hierarchy, c: ClassId, j: ClassId, k: ClassId, x: ClassId)
    requires Valid(h) && Has(h, k) && Parent(h, k) == Some(c) && c < j <= k
    requires x in Subtree(h, k)
    ensures x in SubtreesFrom(h, c, j)
    decreases k - j
  {
    var head := if Parent(h, j) == Some(c) then Subtree(h, j) else [];
    var rest := SubtreesFrom(h, c, j + 1);
    assert SubtreesFrom(h, c, j) == head + rest;
    if j < k {
      SubtreeInSubtreesFrom(h, c, j + 1, k, x);
      assert x in rest;
    } else {
      assert head == Subtree(h, k);
    }
    assert x in head + rest;
  }

  lemma {:induction false} AncestorInSubtree(h: Hierarchy, c: ClassId, x: ClassId)
    requires Valid(h) && Has(h, c) && Has(h, x) && c in Ancestors(h, x)
    ensures x in Subtree(h, c)
    decreases |h.classes| - c
  {
    var a := Ancestors(h, x);
    if x != c {
      var i :| 0 <= i < |a| && a[i] == c;
      var k := a[i - 1];
      assert Parent(h, k) == Some(c);
      assert k in a;
      AncestorInSubtree(h, k, x);
      SubtreeInSubtreesFrom(h, c, c + 1, k, x);
      assert Subtree(h, c) == [c] + SubtreesFrom(h, c, c + 1);
    }
  }

  lemma {:induction false} TopsMembers(h: Hierarchy, s: seq<ClassId>, x: ClassId)
    requires Valid(h) && forall i | 0 <= i < |s| :: Has(h, s[i])
    ensures x in Tops(h, s) <==> x in s && IsTop(h, x)
    decreases |s|
  {
    if |s| > 0 {
      TopsMembers(h, s[1..], x);
      assert s == [s[0]] + s[1..];
    }
  }

  /** `classes()` lists, in depth-first order, exactly the indexable classes
      under the base with no indexable parent, and never one below another. */
  lemma ClassesAreTopMost(h: Hierarchy, x: ClassId)
    requires Valid(h)
    ensures Classes(h) == Tops(h, Subtree(h, h.base))
    ensures x in Classes(h) <==> Has(h, x) && h.base in Ancestors(h, x) && IsTop(h, x)
    ensures x in Classes(h) ==> forall i | 1 <= i < |Ancestors(h, x)| :: !Indexable(h, Ancestors(h, x)[i])
  {
    CollectIsTops(h, h.base);
    TopsMembers(h, Subtree(h, h.base), x);
    if x in Subtree(h, h.base) {
      SubtreeHasAncestor(h, h.base, x);
    }
    if Has(h, x) && h.base in Ancestors(h, x) {
      AncestorInSubtree(h, h.base, x);
    }
    if x in Classes(h) {
      TopHasNoIndexableAncestor(h, x);
    }
  }

  /** Two highest indexable positions of one chain are the same position. */
  lemma TopIndexableUnique(h: Hierarchy, a: seq<ClassId>, i: int, j: int)
    requires Valid(h) && forall k | 0 <= k < |a| :: Has(h, a[k])
    requires TopIndexableAt(h, a, i) && TopIndexableAt(h, a, j)
    ensures i == j
  {
  }

  /** Every class in the subclass tree of a top-most es class resolves to
      that class, the parentless root only for itself: documents of all of
      them carry the doc type whose mapping `create` publishes. */
  lemma EsRootBelowTop(h: Hierarchy, e: ClassId, d: ClassId)
    requires Valid(h) && Has(h, e) && Has(h, d) && IsTop(h, e) && e in Ancestors(h, d)
    requires d == e || Parent(h, e).Some?
    ensures EsRoot(h, d) == Some(e)
  {
    var a := Ancestors(h, d);
    var init := if Indexable(h, d) then Some(d) else None;
    if Parent(h, e).None? {
      assert a == [d];
    } else {
      var i :| 0 <= i < |a| && a[i] == e;
      AncestorsSuffix(h, d, i);
      TopHasNoIndexableAncestor(h, e);
      var b := Ancestors(h, e);
      assert b == a[i..];
      forall k | i < k < |a| - 1 ensures !Indexable(h, a[k]) {
        assert a[k] == b[k - i];
      }
      assert TopIndexableAt(h, a, i);
      ClimbHighest(h, d, init);
      var j :| TopIndexableAt(h, a, j) && Climb(h, d, init) == Some(a[j]);
      TopIndexableUnique(h, a, i, j);
    }
  }
  /** The base, being parentless, can only be the last class of a chain. */
  lemma {:induction false} BaseEndsChain(h: Hierarchy, x: ClassId)
    requires Valid(h) && Has(h, x) && h.base in Ancestors(h, x)
    ensures Ancestors(h, x)[|Ancestors(h, x)| - 1] == h.base
    decreases x
  {
    if x != h.base {
      var p := Parent(h, x).value;
      assert Ancestors(h, x) == [x] + Ancestors(h, p);
      BaseEndsChain(h, p);
    }
  }

  /** An indexable class below the base has a top-most es class on its
      parent chain. */
  lemma {:induction false} TopAbove(h: Hierarchy, x: ClassId)
    requires Valid(h) && Has(h, x) && Indexable(h, x)
    ensures exists j | 0 <= j < |Ancestors(h, x)| :: IsTop(h, Ancestors(h, x)[j])
    decreases x
  {
    match Parent(h, x)
    case None =>
      assert IsTop(h, Ancestors(h, x)[0]);
    case Some(p) =>
      if !Indexable(h, p) {
        assert IsTop(h, Ancestors(h, x)[0]);
      } else {
        TopAbove(h, p);
        var j :| 0 <= j < |Ancestors(h, p)| && IsTop(h, Ancestors(h, p)[j]);
        assert Ancestors(h, x)[j + 1] == Ancestors(h, p)[j];
      }
  }

  /** The top-most es class above an indexable class below the base is
      one of `classes()`. */
  lemma TopInClasses(h: Hierarchy, x: ClassId)
    requires Valid(h) && Has(h, x) && h.base in Ancestors(h, x) && Indexable(h, x)
    ensures exists t | t in Classes(h) :: t in Ancestors(h, x)
  {
    var a := Ancestors(h, x);
    TopAbove(h, x);
    var j :| 0 <= j < |a| && IsTop(h, a[j]);
    AncestorsSuffix(h, x, j);
    BaseEndsChain(h, x);
    assert h.base == a[j..][|a| - 1 - j];
    ClassesAreTopMost(h, a[j]);
  }

}
