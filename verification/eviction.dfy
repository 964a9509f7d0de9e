/** The ordering `cleanupMemoryMap` evicts by (src/utils.ts). The entries are
    copied into an array of {key, timestamp} records and sorted by timestamp
    with a stable sort, so equal timestamps keep map order. A stable sort by
    timestamp yields the same permutation as a sort by (timestamp, position
    in the map), which is a total order on the records; the model sorts by
    that pair with an insertion sort. */
module Eviction {
  import opened Types
  import OrderedMap

  /** One record of the sorted array; `pos` is its index in map order. */
  datatype Candidate = Candidate(key: string, timestamp: nat, pos: nat)

  /** The order of the sorted array: older first, ties in map order. */
  predicate Le(a: Candidate, b: Candidate) {
    a.timestamp < b.timestamp || (a.timestamp == b.timestamp && a.pos <= b.pos)
  }

  predicate Sorted(s: seq<Candidate>) {
    forall i, j | 0 <= i < j < |s| :: Le(s[i], s[j])
  }

  predicate Distinct<T(==)>(s: seq<T>) {
    forall i, j | 0 <= i < j < |s| :: s[i] != s[j]
  }

  /** Inserts `c` into a sorted sequence. */
  function Insert(c: Candidate, s: seq<Candidate>): (r: seq<Candidate>)
    requires Sorted(s)
    ensures Sorted(r)
    ensures multiset(r) == multiset(s) + multiset{c}
    ensures Distinct(s) && c !in s ==> Distinct(r)
  {
    if |s| == 0 then [c]
    else if Le(c, s[0]) then
      ConsSorted(c, s);
      ConsDistinct(c, s);
      [c] + s
    else
      var t := Insert(c, s[1..]);
      InsertBehindHead(c, s, t);
      [s[0]] + t
  }

  lemma ConsSorted(x: Candidate, t: seq<Candidate>)
    requires Sorted(t) && (|t| > 0 ==> Le(x, t[0]))
    ensures Sorted([x] + t)
  {
    var r := [x] + t;
    forall a, b | 0 <= a < b < |r| ensures Le(r[a], r[b]) {
      assert r[b] == t[b - 1];
      if a > 0 {
        assert r[a] == t[a - 1];
      }
    }
  }

  lemma ConsDistinct<T>(x: T, t: seq<T>)
    ensures Distinct(t) && x !in t ==> Distinct([x] + t)
  {
    var r := [x] + t;
    if Distinct(t) && x !in t {
      forall a, b | 0 <= a < b < |r| ensures r[a] != r[b] {
        assert r[b] == t[b - 1];
        if a > 0 {
          assert r[a] == t[a - 1];
        }
      }
    }
  }

  lemma InsertBehindHead(c: Candidate, s: seq<Candidate>, t: seq<Candidate>)
    requires |s| > 0 && Sorted(s) && !Le(c, s[0])
    requires Sorted(t) && multiset(t) == multiset(s[1..]) + multiset{c}
    requires Distinct(s[1..]) && c !in s[1..] ==> Distinct(t)
    ensures Sorted([s[0]] + t)
    ensures multiset([s[0]] + t) == multiset(s) + multiset{c}
    ensures Distinct(s) && c !in s ==> Distinct([s[0]] + t)
  {
    assert s == [s[0]] + s[1..];
    HeadBeforeRest(c, s, t);
    ConsSorted(s[0], t);
    TailDistinct(c, s, t);
  }

  lemma HeadBeforeRest(c: Candidate, s: seq<Candidate>, t: seq<Candidate>)
    requires |s| > 0 && Sorted(s) && !Le(c, s[0])
    requires multiset(t) == multiset(s[1..]) + multiset{c}
    ensures |t| > 0 ==> Le(s[0], t[0])
  {
    if |t| > 0 && t[0] != c {
      assert t[0] in multiset(t);
      assert t[0] in multiset(s[1..]);
      var q :| 0 <= q < |s[1..]| && s[1..][q] == t[0];
      assert s[q + 1] == t[0];
    }
  }

  lemma TailDistinct(c: Candidate, s: seq<Candidate>, t: seq<Candidate>)
    requires |s| > 0
    requires multiset(t) == multiset(s[1..]) + multiset{c}
    requires Distinct(s[1..]) && c !in s[1..] ==> Distinct(t)
    ensures Distinct(s) && c !in s ==> Distinct([s[0]] + t)
  {
    if Distinct(s) && c !in s {
      assert s == [s[0]] + s[1..];
      assert forall q | 0 <= q < |s[1..]| :: s[1..][q] == s[q + 1] != s[0];
      assert s[0] !in multiset(t);
      assert forall a, b | 0 <= a < b < |s[1..]| :: s[1..][a] == s[a + 1] && s[1..][b] == s[b + 1];
      ConsDistinct(s[0], t);
    }
  }

  /** Sorts the records, oldest first, ties in map order. */
  function Sort(s: seq<Candidate>): (r: seq<Candidate>)
    ensures Sorted(r)
    ensures multiset(r) == multiset(s)
    ensures |r| == |s|
    ensures Distinct(s) ==> Distinct(r)
  {
    if |s| == 0 then []
    else
      assert s == [s[0]] + s[1..];
      var t := Sort(s[1..]);
      assert Distinct(s) ==> s[0] !in t by {
        if Distinct(s) {
          assert forall q | 0 <= q < |s[1..]| :: s[1..][q] == s[q + 1] != s[0];
          assert s[0] !in multiset(s[1..]);
        }
      }
      var r := Insert(s[0], t);
      assert |r| == |multiset(r)|;
      r
  }

  /** The records built from the map's entries, in map order. */
  function Candidates(m: Store): (cs: seq<Candidate>)
    ensures |cs| == |m|
    ensures forall i | 0 <= i < |m| :: cs[i] == Candidate(m[i].0, Timestamp(m[i].1), i)
  {
    seq(|m|, i requires 0 <= i < |m| => Candidate(m[i].0, Timestamp(m[i].1), i))
  }

  /** The keys `cleanupMemoryMap` deletes: those of the first `count` records
      of the sorted array. They are `count` distinct keys of the map, and each
      comes before every key not among them in eviction order. */
  function Victims(m: Store, count: nat): (ks: seq<string>)
    requires count <= |m|
    ensures |ks| == count
    ensures forall q | 0 <= q < count :: ks[q] == Sort(Candidates(m))[q].key
    ensures (set x | x in ks) <= OrderedMap.Keys(m) && |set x | x in ks| == count
    ensures forall i, j | 0 <= i < |m| && 0 <= j < |m| && m[i].0 in ks && m[j].0 !in ks
              :: EvictedBefore(m, i, j)
  {
    var order := Sort(Candidates(m));
    var ks := seq(count, q requires 0 <= q < count => order[q].key);
    VictimsAreKeys(m, count, ks);
    assert forall i, j | 0 <= i < |m| && 0 <= j < |m| && m[i].0 in ks && m[j].0 !in ks
             :: EvictedBefore(m, i, j) by {
      forall i, j | 0 <= i < |m| && 0 <= j < |m| && m[i].0 in ks && m[j].0 !in ks
        ensures EvictedBefore(m, i, j)
      {
        VictimsFirst(m, count, ks, i, j);
      }
    }
    ks
  }

  /** `ks` lists the keys of the first `count` sorted records. */
  predicate SortedPrefixKeys(m: Store, count: nat, ks: seq<string>) {
    count <= |m| && |ks| == count
    && forall q | 0 <= q < count :: ks[q] == Sort(Candidates(m))[q].key
  }

  /** Entry `i` goes before entry `j` in eviction order. */
  predicate EvictedBefore(m: Store, i: nat, j: nat)
    requires i < |m| && j < |m|
  {
    Timestamp(m[i].1) < Timestamp(m[j].1)
    || (Timestamp(m[i].1) == Timestamp(m[j].1) && i < j)
  }

  /** `kept` is `m` less some entries, each of them older (ties: earlier in
      map order) than every entry kept; kept entries keep their values and
      their relative order. */
  predicate OldestRemoved(m: Store, kept: Store) {
    && kept == OrderedMap.Filter(m, OrderedMap.Keys(m) - OrderedMap.Keys(kept))
    && forall i, j | 0 <= i < |m| && 0 <= j < |m|
         && m[i].0 !in OrderedMap.Keys(kept) && m[j].0 in OrderedMap.Keys(kept)
         :: EvictedBefore(m, i, j)
  }

  /** An entry that is not before a kept entry in eviction order is kept. */
  lemma KeptIfNotBefore(m: Store, kept: Store, i: nat, j: nat)
    requires OldestRemoved(m, kept) && i < |m| && j < |m|
    requires m[j].0 in OrderedMap.Keys(kept) && !EvictedBefore(m, i, j)
    ensures m[i].0 in OrderedMap.Keys(kept)
  {
  }

  /** An entry that is not after a removed entry in eviction order is removed. */
  lemma RemovedIfNotAfter(m: Store, kept: Store, r: nat, i: nat)
    requires OldestRemoved(m, kept) && r < |m| && i < |m|
    requires m[r].0 !in OrderedMap.Keys(kept) && !EvictedBefore(m, r, i)
    ensures m[i].0 !in OrderedMap.Keys(kept)
  {
  }

  /** When fewer entries are kept, some entry was removed. */
  lemma SomeRemoved(m: Store, kept: Store) returns (r: nat)
    requires OldestRemoved(m, kept) && |kept| < |m|
    ensures r < |m| && m[r].0 !in OrderedMap.Keys(kept)
  {
    OrderedMap.KeysCardinality(m);
    OrderedMap.KeysCardinality(kept);
    OrderedMap.FilterKeys(m, OrderedMap.Keys(m) - OrderedMap.Keys(kept));
    assert OrderedMap.Keys(kept) < OrderedMap.Keys(m);
    var k :| k in OrderedMap.Keys(m) - OrderedMap.Keys(kept);
    r :| 0 <= r < |m| && m[r].0 == k;
  }

  /** An entry no newer than any other is the first to go. */
  lemma OldestFirstRemoved(m: Store, kept: Store)
    requires OldestRemoved(m, kept) && |m| > 0 && |kept| < |m|
    requires forall j | 0 < j < |m| :: Timestamp(m[0].1) <= Timestamp(m[j].1)
    ensures m[0].0 !in OrderedMap.Keys(kept)
  {
    var r := SomeRemoved(m, kept);
    if r > 0 {
      assert !EvictedBefore(m, r, 0);
      RemovedIfNotAfter(m, kept, r, 0);
    }
  }

  /** A subset one element short of `all` that misses `x` misses only `x`. */
  lemma OnlyMissing(all: set<string>, part: set<string>, x: string)
    requires part <= all && x in all && x !in part && |part| == |all| - 1
    ensures (all - part) * all == {x}
  {
    var rest := all - {x};
    assert part <= rest && |rest| == |part|;
    assert rest == part + (rest - part);
    assert |rest - part| == 0;
    assert part == rest;
  }

  /** With one entry to evict and entry 0 no newer than any other, the
      eviction removes exactly the first entry. */
  lemma OldestAloneRemoved(m: Store, kept: Store)
    requires OldestRemoved(m, kept) && |m| > 0 && |kept| == |m| - 1
    requires forall j | 0 < j < |m| :: Timestamp(m[0].1) <= Timestamp(m[j].1)
    ensures kept == m[1..]
  {
    OldestFirstRemoved(m, kept);
    var kk := OrderedMap.Keys(kept);
    var km := OrderedMap.Keys(m);
    OrderedMap.FilterKeys(m, km - kk);
    OrderedMap.KeysCardinality(m);
    OrderedMap.KeysCardinality(kept);
    assert m[0].0 in km;
    OnlyMissing(km, kk, m[0].0);
    OrderedMap.DropFirst(m, km - kk);
  }

  lemma {:induction false} DistinctCard(s: seq<string>)
    requires Distinct(s)
    ensures |set x | x in s| == |s|
  {
    if |s| > 0 {
      DistinctCard(s[1..]);
      assert (set x | x in s) == {s[0]} + (set x | x in s[1..]);
      assert forall q | 0 <= q < |s[1..]| :: s[1..][q] == s[q + 1] != s[0];
    }
  }

  /** Every sorted record is the record of some entry. */
  lemma RecordIndex(m: Store, q: nat) returns (i: nat)
    requires q < |m|
    ensures i < |m| && Sort(Candidates(m))[q] == Candidates(m)[i]
  {
    var cands := Candidates(m);
    assert Sort(cands)[q] in multiset(cands);
    i :| 0 <= i < |m| && cands[i] == Sort(cands)[q];
  }

  /** The keys of the first `count` sorted records are `count` distinct keys
      of the map. */
  lemma VictimsAreKeys(m: Store, count: nat, victims: seq<string>)
    requires SortedPrefixKeys(m, count, victims)
    ensures var drop := set x | x in victims;
      drop <= OrderedMap.Keys(m) && |drop| == count
  {
    var cands := Candidates(m);
    var order := Sort(cands);
    assert Distinct(cands);
    forall a, b | 0 <= a < b < |victims| ensures victims[a] != victims[b] {
      var i := RecordIndex(m, a);
      var j := RecordIndex(m, b);
      assert order[a] != order[b];
    }
    DistinctCard(victims);
    forall x | x in victims ensures x in OrderedMap.Keys(m) {
      var a :| 0 <= a < |victims| && victims[a] == x;
      var i := RecordIndex(m, a);
      assert m[i].0 == x;
    }
  }

  /** The sorted record carrying entry `i`'s key is entry `i`'s record. */
  lemma RecordOfKey(m: Store, q: nat, i: nat)
    requires q < |m| && i < |m| && Sort(Candidates(m))[q].key == m[i].0
    ensures Sort(Candidates(m))[q] == Candidates(m)[i]
  {
    var cands := Candidates(m);
    var order := Sort(cands);
    assert order[q] in multiset(cands);
    var i' :| 0 <= i' < |m| && cands[i'] == order[q];
    assert m[i'].0 == m[i].0;
  }

  /** An entry whose key is among the first `count` sorted records comes
      before every other entry in eviction order. */
  lemma VictimsFirst(m: Store, count: nat, victims: seq<string>, i: nat, j: nat)
    requires SortedPrefixKeys(m, count, victims) && i < |m| && j < |m|
    requires m[i].0 in victims && m[j].0 !in victims
    ensures EvictedBefore(m, i, j)
  {
    var cands := Candidates(m);
    var order := Sort(cands);
    var a :| 0 <= a < count && victims[a] == m[i].0;
    RecordOfKey(m, a, i);
    assert cands[j] in multiset(order);
    var b :| 0 <= b < |order| && order[b] == cands[j];
    assert forall q | 0 <= q < count :: order[q].key == victims[q] != m[j].0;
    assert a < b;
    assert Le(order[a], order[b]);
  }

  /** Deleting the victims drops exactly their keys, `count` of them. */
  lemma VictimsDropped(m: Store, count: nat)
    requires count <= |m|
    ensures var drop := set x | x in Victims(m, count);
      var kept := OrderedMap.DeleteAll(m, Victims(m, count));
      && |kept| == |m| - count
      && OrderedMap.Keys(m) - OrderedMap.Keys(kept) == drop
  {
    var drop := set x | x in Victims(m, count);
    OrderedMap.FilterSize(m, drop);
    assert drop * OrderedMap.Keys(m) == drop;
    OrderedMap.FilterKeys(m, drop);
  }

  /** Deleting the keys of the first `count` sorted records removes exactly
      `count` entries, the oldest ones. */
  lemma EvictOldest(m: Store, count: nat)
    requires count <= |m|
    ensures var kept := OrderedMap.DeleteAll(m, Victims(m, count));
      |kept| == |m| - count && OldestRemoved(m, kept)
  {
    var victims := Victims(m, count);
    var kept := OrderedMap.DeleteAll(m, victims);
    VictimsDropped(m, count);
  }
}
