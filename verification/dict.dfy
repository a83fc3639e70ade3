/** Python dictionaries with string keys: key/value pairs kept in insertion order, where
    assigning to an existing key replaces its value in place. */
module Dict {
  import opened Results

  type Dict<V> = seq<(string, V)>

  /** The keys in iteration order. */
  function Keys<V>(d: Dict<V>): (ks: seq<string>)
    ensures |ks| == |d|
    ensures forall i | 0 <= i < |d| :: ks[i] == d[i].0
  {
    seq(|d|, i requires 0 <= i < |d| => d[i].0)
  }

  /** `d[k]`, or None when `k not in d`. */
  function Get<V>(d: Dict<V>, k: string): (r: Option<V>)
    ensures r.Some? <==> k in Keys(d)
  {
    if |d| == 0 then None
    else if d[0].0 == k then Some(d[0].1)
    else Get(d[1..], k)
  }

  /** No key occurs twice; every dictionary built with Put has this shape. */
  predicate Distinct<V>(d: Dict<V>) {
    forall i, j | 0 <= i < j < |d| :: d[i].0 != d[j].0
  }

  /** `d[k] = v`: replaces the value of an existing key where it stands,
      otherwise appends the key at the end. */
  function Put<V>(d: Dict<V>, k: string, v: V): (r: Dict<V>)
    ensures Get(r, k) == Some(v)
    ensures forall j | j != k :: Get(r, j) == Get(d, j)
    ensures Keys(r) == if k in Keys(d) then Keys(d) else Keys(d) + [k]
  {
    if |d| == 0 then [(k, v)]
    else if d[0].0 == k then
      var r := [(k, v)] + d[1..];
      assert Keys(r) == Keys(d);
      r
    else
      var t := Put(d[1..], k, v);
      var r := [d[0]] + t;
      assert r[1..] == t;
      KeysCons(d[0], t);
      KeysCons(d[0], d[1..]);
      assert [d[0]] + d[1..] == d;
      r
  }

  lemma KeysCons<V>(p: (string, V), d: Dict<V>)
    ensures Keys([p] + d) == [p.0] + Keys(d)
  {
  }

  lemma PutDistinct<V>(d: Dict<V>, k: string, v: V)
    requires Distinct(d)
    ensures Distinct(Put(d, k, v))
  {
    var r := Put(d, k, v);
    forall i, j | 0 <= i < j < |r| ensures r[i].0 != r[j].0 {
      assert r[i].0 == Keys(r)[i] && r[j].0 == Keys(r)[j];
      if j < |d| {
        assert Keys(d)[i] == d[i].0;
      }
    }
  }

  /** `del d[k]` (tolerating an absent key): drops the key, keeps the rest in order. */
  function Remove<V>(d: Dict<V>, k: string): (r: Dict<V>)
    ensures Get(r, k) == None
    ensures forall j | j != k :: Get(r, j) == Get(d, j)
  {
    if |d| == 0 then []
    else if d[0].0 == k then Remove(d[1..], k)
    else
      var t := Remove(d[1..], k);
      var r := [d[0]] + t;
      assert r[1..] == t;
      r
  }

  /** `for k, v in ps: d[k] = v`. */
  function PutAll<V>(d: Dict<V>, ps: seq<(string, V)>): Dict<V>
    decreases |ps|
  {
    if |ps| == 0 then d else PutAll(Put(d, ps[0].0, ps[0].1), ps[1..])
  }

  lemma {:induction false} PutAllDistinct<V>(d: Dict<V>, ps: seq<(string, V)>)
    requires Distinct(d)
    ensures Distinct(PutAll(d, ps))
    decreases |ps|
  {
    if |ps| > 0 {
      PutDistinct(d, ps[0].0, ps[0].1);
      PutAllDistinct(Put(d, ps[0].0, ps[0].1), ps[1..]);
    }
  }

  /** Position i holds the last pair of ps with key k. */
  ghost predicate LastAt<V>(ps: seq<(string, V)>, k: string, i: int) {
    0 <= i < |ps| && ps[i].0 == k && forall j | i < j < |ps| :: ps[j].0 != k
  }

  /** Every key that occurs has a last occurrence, at or after any given one. */
  lemma {:induction false} LastOccurrence<V>(ps: seq<(string, V)>, k: string, i: int)
    requires 0 <= i < |ps| && ps[i].0 == k
    ensures exists j | i <= j < |ps| :: LastAt(ps, k, j)
    decreases |ps| - i
  {
    if !LastAt(ps, k, i) {
      var j :| i < j < |ps| && ps[j].0 == k;
      LastOccurrence(ps, k, j);
    }
  }

  /** Replaying assignments: the last assignment to a key wins, and a key
      never assigned keeps its earlier value. */
  lemma {:induction false} PutAllGet<V>(d: Dict<V>, ps: seq<(string, V)>, k: string)
    ensures (forall i | 0 <= i < |ps| :: ps[i].0 != k) ==> Get(PutAll(d, ps), k) == Get(d, k)
    ensures forall i | LastAt(ps, k, i) :: Get(PutAll(d, ps), k) == Some(ps[i].1)
    decreases |ps|
  {
    if |ps| > 0 {
      var d' := Put(d, ps[0].0, ps[0].1);
      PutAllGet(d', ps[1..], k);
      forall i | LastAt(ps, k, i)
        ensures Get(PutAll(d, ps), k) == Some(ps[i].1)
      {
        if i > 0 {
          assert LastAt(ps[1..], k, i - 1);
        } else {
          assert forall j | 0 <= j < |ps[1..]| :: ps[1..][j].0 != k by {
            forall j | 0 <= j < |ps[1..]| ensures ps[1..][j].0 != k {
              assert ps[1..][j] == ps[j + 1];
            }
          }
        }
      }
      if forall i | 0 <= i < |ps| :: ps[i].0 != k {
        assert forall j | 0 <= j < |ps[1..]| :: ps[1..][j].0 != k by {
          forall j | 0 <= j < |ps[1..]| ensures ps[1..][j].0 != k {
            assert ps[1..][j] == ps[j + 1];
          }
        }
      }
    }
  }

  /** Which keys a replay defines: the earlier ones plus every assigned key. */
  lemma {:induction false} PutAllKeys<V>(d: Dict<V>, ps: seq<(string, V)>, k: string)
    ensures k in Keys(PutAll(d, ps)) <==> k in Keys(d) || exists i | 0 <= i < |ps| :: ps[i].0 == k
    decreases |ps|
  {
    if |ps| > 0 {
      var d' := Put(d, ps[0].0, ps[0].1);
      PutAllKeys(d', ps[1..], k);
      assert PutAll(d, ps) == PutAll(d', ps[1..]);
      assert k in Keys(d') <==> k in Keys(d) || k == ps[0].0;
      if exists i | 0 <= i < |ps[1..]| :: ps[1..][i].0 == k {
        var i :| 0 <= i < |ps[1..]| && ps[1..][i].0 == k;
        assert ps[i + 1].0 == k;
      }
      if exists i | 0 <= i < |ps| :: ps[i].0 == k {
        var i :| 0 <= i < |ps| && ps[i].0 == k;
        if i > 0 {
          assert ps[1..][i - 1].0 == k;
        }
      }
    }
  }

  /** In a dictionary without repeated keys, a key's pair is its value. */
  lemma {:induction false} GetDistinct<V>(d: Dict<V>, i: int)
    requires Distinct(d)
    requires 0 <= i < |d|
    ensures Get(d, d[i].0) == Some(d[i].1)
    decreases |d|
  {
    if i > 0 {
      assert d[1..][i - 1] == d[i];
      GetDistinct(d[1..], i - 1);
    }
  }

  /** Dropping the first pair keeps the keys distinct, and leaves the first
      key nowhere in the rest. */
  lemma DistinctTail<V>(d: Dict<V>)
    requires Distinct(d) && |d| > 0
    ensures Distinct(d[1..])
    ensures forall j | 0 <= j < |d[1..]| :: d[1..][j].0 != d[0].0
  {
    forall j, k | 0 <= j < k < |d[1..]| ensures d[1..][j].0 != d[1..][k].0 {
      assert d[1..][j] == d[j + 1] && d[1..][k] == d[k + 1];
    }
    forall j | 0 <= j < |d[1..]| ensures d[1..][j].0 != d[0].0 {
      assert d[1..][j] == d[j + 1];
    }
  }

  /** Keys that differ pairwise make a dictionary without repeated keys. */
  lemma KeysDistinct<V>(d: Dict<V>)
    requires forall i, j | 0 <= i < j < |d| :: Keys(d)[i] != Keys(d)[j]
    ensures Distinct(d)
  {
    forall i, j | 0 <= i < j < |d| ensures d[i].0 != d[j].0 {
      assert d[i].0 == Keys(d)[i] && d[j].0 == Keys(d)[j];
    }
  }

  /** A key absent from a list of pairs is absent from its tail. */
  lemma AvoidsTail<V>(ps: seq<(string, V)>, k: string)
    requires |ps| > 0 && forall i | 0 <= i < |ps| :: ps[i].0 != k
    ensures forall j | 0 <= j < |ps[1..]| :: ps[1..][j].0 != k
  {
    forall j | 0 <= j < |ps[1..]| ensures ps[1..][j].0 != k {
      assert ps[1..][j] == ps[j + 1];
    }
  }

  /** The last occurrence of a key moves one place down in the tail, or,
      when it was the head, the tail has no occurrence left. */
  lemma LastAtTail<V>(ps: seq<(string, V)>, k: string, i: int)
    requires LastAt(ps, k, i)
    ensures i > 0 ==> LastAt(ps[1..], k, i - 1)
    ensures i == 0 ==> forall j | 0 <= j < |ps[1..]| :: ps[1..][j].0 != k
  {
    forall j | 0 <= j < |ps[1..]| ensures i <= j ==> ps[1..][j].0 != k {
      assert ps[1..][j] == ps[j + 1];
    }
  }
}
