/** A model of the JavaScript `Map` the tracking store is built on: a sequence
    of (key, value) pairs in insertion order in which every key occurs at most
    once. `Set` on a present key overwrites in place (the key keeps its
    position); `Set` on a new key appends; `Delete` drops the pair and keeps the
    order of the rest. Keys are strings, as in the store. */
module OrderedMap {
  import opened Wrappers

  type OMap<V> = seq<(string, V)>

  /** No key occurs twice. */
  predicate Valid<V>(m: OMap<V>) {
    forall i, j | 0 <= i < j < |m| :: m[i].0 != m[j].0
  }

  /** The keys of the map, as a set. */
  function Keys<V>(m: OMap<V>): set<string> {
    set i | 0 <= i < |m| :: m[i].0
  }

  lemma KeysCons<V>(m: OMap<V>)
    requires |m| > 0
    ensures Keys(m) == {m[0].0} + Keys(m[1..])
  {
    assert forall i | 1 <= i < |m| :: m[i] == m[1..][i - 1];
  }

  /** A map without repeated keys has as many keys as pairs. */
  lemma {:induction false} KeysCardinality<V>(m: OMap<V>)
    requires Valid(m)
    ensures |Keys(m)| == |m|
  {
    if |m| > 0 {
      KeysCardinality(m[1..]);
      KeysCons(m);
      assert forall j | 0 <= j < |m[1..]| :: m[1..][j].0 == m[j + 1].0 != m[0].0;
    }
  }

  /** The keys in map (iteration) order. */
  function KeyOrder<V>(m: OMap<V>): (ks: seq<string>)
    ensures |ks| == |m|
    ensures forall i | 0 <= i < |m| :: ks[i] == m[i].0
  {
    seq(|m|, i requires 0 <= i < |m| => m[i].0)
  }

  /** Position of `k`, if present: the lookup behind `get`, `has` and `set`. */
  function IndexOf<V>(m: OMap<V>, k: string): (r: Option<nat>)
    ensures r.Some? ==> r.value < |m| && m[r.value].0 == k
    ensures r.None? ==> k !in Keys(m)
  {
    if |m| == 0 then None
    else if m[0].0 == k then Some(0)
    else
      KeysCons(m);
      match IndexOf(m[1..], k)
      case None => None
      case Some(i) => Some(i + 1)
  }

  /** `Map.prototype.get`: the value stored under `k`, or `None`. */
  function Get<V>(m: OMap<V>, k: string): (r: Option<V>)
    ensures r.Some? <==> k in Keys(m)
    ensures Valid(m) ==> forall i | 0 <= i < |m| && m[i].0 == k :: r == Some(m[i].1)
  {
    match IndexOf(m, k)
    case None => None
    case Some(i) => Some(m[i].1)
  }

  /** `Map.prototype.set`. */
  function Set<V>(m: OMap<V>, k: string, v: V): (r: OMap<V>)
    requires Valid(m)
    ensures Valid(r)
    ensures Keys(r) == Keys(m) + {k}
    ensures Get(r, k) == Some(v)
    ensures forall k' | k' != k :: Get(r, k') == Get(m, k')
    // a present key keeps its position, and no other pair moves
    ensures k in Keys(m) ==> |r| == |m| && forall i | 0 <= i < |m| :: r[i].0 == m[i].0
    // a new key is appended after every existing pair
    ensures k !in Keys(m) ==> |r| == |m| + 1 && r[..|m|] == m && r[|m|] == (k, v)
  {
    match IndexOf(m, k)
    case Some(i) =>
      var r := m[i := (k, v)];
      assert forall j | 0 <= j < |m| :: r[j].0 == m[j].0;
      assert Keys(r) == Keys(m) && m[i].0 in Keys(m);
      SetOthers(m, r, k);
      r
    case None =>
      var r := m + [(k, v)];
      assert forall j | 0 <= j < |m| :: r[j] == m[j];
      assert Keys(r) == Keys(m) + {r[|m|].0};
      SetOthers(m, r, k);
      r
  }

  lemma SetOthers<V>(m: OMap<V>, r: OMap<V>, k: string)
    requires Valid(m) && Valid(r) && |m| <= |r|
    requires forall j | 0 <= j < |m| && m[j].0 != k :: r[j] == m[j]
    requires forall j | 0 <= j < |m| && m[j].0 == k :: r[j].0 == k
    requires forall j | |m| <= j < |r| :: r[j].0 == k
    ensures forall k' | k' != k :: Get(r, k') == Get(m, k')
  {
    forall k' | k' != k ensures Get(r, k') == Get(m, k') {
      if k' in Keys(m) {
        var j :| 0 <= j < |m| && m[j].0 == k';
        assert r[j] == m[j];
      } else {
        assert forall j | 0 <= j < |r| :: r[j].0 != k' by {
          forall j | 0 <= j < |r| ensures r[j].0 != k' {
            if j < |m| && m[j].0 != k {
              assert r[j] == m[j] && m[j].0 in Keys(m);
            }
          }
        }
      }
    }
  }

  /** The pairs of `m` whose key is not in `drop`, in their original order.
      This is the reference meaning of deleting a set of keys. */
  function Filter<V>(m: OMap<V>, drop: set<string>): (r: OMap<V>)
    ensures forall j | 0 <= j < |r| :: r[j] in m && r[j].0 !in drop
    ensures forall i | 0 <= i < |m| && m[i].0 !in drop :: m[i] in r
    ensures |r| <= |m|
  {
    if |m| == 0 then []
    else
      var rest := Filter(m[1..], drop);
      assert forall i | 1 <= i < |m| :: m[i] == m[1..][i - 1];
      if m[0].0 in drop then rest else [m[0]] + rest
  }

  lemma FilterKeys<V>(m: OMap<V>, drop: set<string>)
    ensures Keys(Filter(m, drop)) == Keys(m) - drop
  {
    var r := Filter(m, drop);
    forall k | k in Keys(m) - drop ensures k in Keys(r) {
      var i :| 0 <= i < |m| && m[i].0 == k;
      assert m[i] in r;
    }
    forall k | k in Keys(r) ensures k in Keys(m) - drop {
      var j :| 0 <= j < |r| && r[j].0 == k;
      assert r[j] in m;
    }
  }

  /** Filtering keeps keys unique. */
  lemma {:induction false} FilterValid<V>(m: OMap<V>, drop: set<string>)
    requires Valid(m)
    ensures Valid(Filter(m, drop))
  {
    if |m| > 0 {
      var rest := Filter(m[1..], drop);
      FilterValid(m[1..], drop);
      if m[0].0 !in drop {
        var r := [m[0]] + rest;
        assert forall j | 0 <= j < |rest| :: rest[j].0 != m[0].0 by {
          forall j | 0 <= j < |rest| ensures rest[j].0 != m[0].0 {
            assert rest[j] in m[1..];
            var i :| 0 <= i < |m[1..]| && m[1..][i] == rest[j];
            assert m[i + 1] == rest[j];
          }
        }
        assert forall a, b | 0 <= a < b < |r| :: r[a].0 != r[b].0 by {
          forall a, b | 0 <= a < b < |r| ensures r[a].0 != r[b].0 {
            assert r[b] == rest[b - 1];
            if a > 0 {
              assert r[a] == rest[a - 1];
            }
          }
        }
      }
    }
  }

  /** Filtering a map without repeated keys removes exactly one pair per
      dropped key that is present. */
  lemma {:induction false} FilterSize<V>(m: OMap<V>, drop: set<string>)
    requires Valid(m)
    ensures |Filter(m, drop)| == |m| - |drop * Keys(m)|
  {
    if |m| > 0 {
      var t := m[1..];
      FilterSize(t, drop);
      KeysCons(m);
      assert forall j | 0 <= j < |t| :: t[j].0 == m[j + 1].0 != m[0].0;
      assert m[0].0 !in Keys(t);
      if m[0].0 in drop {
        assert drop * Keys(m) == {m[0].0} + drop * Keys(t);
      } else {
        assert drop * Keys(m) == drop * Keys(t);
      }
    }
  }

  /** Filtering twice is filtering once by both key sets. */
  lemma {:induction false} FilterFilter<V>(m: OMap<V>, a: set<string>, b: set<string>)
    ensures Filter(Filter(m, a), b) == Filter(m, a + b)
  {
    if |m| > 0 {
      FilterFilter(m[1..], a, b);
      if m[0].0 !in a {
        assert Filter(m, a)[1..] == Filter(m[1..], a);
      }
    }
  }

  /** Dropping keys the map does not hold leaves it as it is. */
  lemma {:induction false} FilterDisjoint<V>(m: OMap<V>, drop: set<string>)
    requires drop !! Keys(m)
    ensures Filter(m, drop) == m
  {
    if |m| > 0 {
      assert m[0].0 in Keys(m);
      assert Keys(m[1..]) <= Keys(m) by {
        forall k | k in Keys(m[1..]) ensures k in Keys(m) {
          var i :| 0 <= i < |m[1..]| && m[1..][i].0 == k;
          assert m[i + 1].0 == k;
        }
      }
      FilterDisjoint(m[1..], drop);
    }
  }

  /** Dropping exactly the first key of a valid map leaves its tail. */
  lemma DropFirst<V>(m: OMap<V>, drop: set<string>)
    requires Valid(m) && |m| > 0 && drop * Keys(m) == {m[0].0}
    ensures Filter(m, drop) == m[1..]
  {
    var tail := m[1..];
    assert drop !! Keys(tail) by {
      forall k | k in Keys(tail) ensures k !in drop {
        var i :| 0 <= i < |tail| && tail[i].0 == k;
        assert m[i + 1].0 == k && m[i + 1].0 in Keys(m);
        assert k !in {m[0].0} && k in Keys(m);
        assert k !in drop * Keys(m);
      }
    }
    FilterDisjoint(tail, drop);
  }

  lemma {:induction false} FilterNothing<V>(m: OMap<V>)
    ensures Filter(m, {}) == m
  {
    if |m| > 0 {
      FilterNothing(m[1..]);
    }
  }

  /** The tail of a valid map is valid and does not hold the first key. */
  lemma ValidTail<V>(m: OMap<V>)
    requires Valid(m) && |m| > 0
    ensures Valid(m[1..]) && m[0].0 !in Keys(m[1..])
  {
    var tail := m[1..];
    forall x | x in Keys(tail) ensures x != m[0].0 {
      var i :| 0 <= i < |tail| && tail[i].0 == x;
      assert m[i + 1].0 == x;
    }
    forall a, b | 0 <= a < b < |tail| ensures tail[a].0 != tail[b].0 {
      assert tail[a] == m[a + 1] && tail[b] == m[b + 1];
    }
  }

  /** Dropping a key held at position `p` of a valid map cuts out that pair. */
  lemma {:induction false} FilterOne<V>(m: OMap<V>, k: string, p: nat)
    requires Valid(m) && p < |m| && m[p].0 == k
    ensures Filter(m, {k}) == m[..p] + m[p + 1..]
    decreases p
  {
    var tail := m[1..];
    ValidTail(m);
    if p == 0 {
      FilterDisjoint(tail, {k});
    } else {
      assert m[0].0 != k;
      FilterOne(tail, k, p - 1);
      SpliceCons(m, p);
    }
  }

  lemma SpliceCons<V>(m: OMap<V>, p: nat)
    requires 0 < p < |m|
    ensures m[..p] + m[p + 1..] == [m[0]] + (m[1..][..p - 1] + m[1..][p..])
  {
    assert m[..p] == [m[0]] + m[1..][..p - 1];
    assert m[p + 1..] == m[1..][p..];
  }

  /** `Map.prototype.delete`. */
  function Delete<V>(m: OMap<V>, k: string): (r: OMap<V>)
    requires Valid(m)
    ensures Valid(r)
    ensures Keys(r) == Keys(m) - {k}
    ensures |r| == if k in Keys(m) then |m| - 1 else |m|
    ensures forall k' | k' != k :: Get(r, k') == Get(m, k')
    // the remaining pairs keep their order
    ensures k in Keys(m) ==> exists p | 0 <= p < |m| && m[p].0 == k :: r == m[..p] + m[p + 1..]
    ensures k !in Keys(m) ==> r == m
  {
    assert k in Keys(m) ==> exists p | 0 <= p < |m| && m[p].0 == k :: Filter(m, {k}) == m[..p] + m[p + 1..] by {
      if k in Keys(m) {
        var p :| 0 <= p < |m| && m[p].0 == k;
        FilterOne(m, k, p);
      }
    }
    assert k !in Keys(m) ==> Filter(m, {k}) == m by {
      if k !in Keys(m) {
        FilterDisjoint(m, {k});
      }
    }
    FilterSize(m, {k});
    FilterValid(m, {k});
    FilterKeys(m, {k});
    assert {k} * Keys(m) == if k in Keys(m) then {k} else {};
    var r := Filter(m, {k});
    assert forall k' | k' != k :: Get(r, k') == Get(m, k') by {
      forall k' | k' != k ensures Get(r, k') == Get(m, k') {
        if k' in Keys(r) {
          var j :| 0 <= j < |r| && r[j].0 == k';
          assert r[j] in m;
        }
      }
    }
    r
  }

  /** Deletes the keys of `ks` one after the other, as the eviction loop does;
      the result is the filter by all of them. */
  function DeleteAll<V>(m: OMap<V>, ks: seq<string>): (r: OMap<V>)
    requires Valid(m)
    ensures Valid(r)
    ensures r == Filter(m, set k | k in ks)
    decreases |ks|
  {
    if |ks| == 0 then
      FilterNothing(m);
      assert (set k | k in ks) == {};
      m
    else
      var m' := Delete(m, ks[0]);
      var r := DeleteAll(m', ks[1..]);
      FilterFilter(m, {ks[0]}, set k | k in ks[1..]);
      assert {ks[0]} + (set k | k in ks[1..]) == set k | k in ks;
      r
  }
}
