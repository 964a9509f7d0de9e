/** The tracking store (src/utils.ts): lazy creation in the `window` slot,
    recording a rendered value with the message id that produced it, and
    eviction of the least recently tracked values. The clock is the `now`
    argument. */
module Tracking {
  import opened Wrappers
  import opened Types
  import OrderedMap
  import Eviction

  /** The map currently in the `window` slot, if any. */
  function GetMemoryMap(host: Host): (m: Option<Store>)
    ensures m.Some? <==> host.Some? && host.value.memoryMap.Some?
    ensures m.Some? ==> m == host.value.memoryMap
  {
    match host
    case None => None
    case Some(win) => win.memoryMap
  }

  /** The same host with `m` in the memory-map slot. */
  function WithMap(win: Window, m: Store): Host {
    Some(win.(memoryMap := Some(m)))
  }

  /** Creates an empty map in the slot when there is none, and returns the
      slot's map; without a browser there is nothing to create. */
  function InitializeMemoryMap(host: Host): (r: (Host, Option<Store>))
    ensures host.None? ==> r == (None, None)
    ensures host.Some? ==> r.1.Some? && GetMemoryMap(r.0) == r.1
    ensures host.Some? && host.value.memoryMap.None? ==> r.1 == Some([]) && r.0 == WithMap(host.value, [])
    ensures host.Some? && host.value.memoryMap.Some? ==> r == (host, host.value.memoryMap)
  {
    match host
    case None => (None, None)
    case Some(win) =>
      match win.memoryMap
      case Some(m) => (host, Some(m))
      case None => (WithMap(win, []), Some([]))
  }

  /** Initializing an initialized host changes nothing and returns the same map. */
  lemma InitializeIdempotent(host: Host)
    ensures InitializeMemoryMap(InitializeMemoryMap(host).0) == InitializeMemoryMap(host)
  {
  }

  /** The entry `TrackTranslation` writes: the earlier ids plus `id`, the text
      kind, and fresh metadata. */
  function Tracked(prior: Option<Entry>, id: string, language: Option<string>, now: nat): (e: Entry)
    ensures id in e.ids
    ensures prior.Some? ==> e.ids == prior.value.ids + {id}
    ensures prior.None? ==> e.ids == {id}
    ensures e.kind == Text && e.metadata == Some(Metadata(language, Some(now)))
  {
    var ids := match prior case Some(prev) => prev.ids case None => {};
    Entry(ids + {id}, Text, Some(Metadata(language, Some(now))))
  }

  /** Records that `id` rendered `value`: the value's entry gains `id`, its
      language is overwritten (even with `None`) and it is stamped `now`; a
      known value keeps its place in the map, a new one is appended. Without a
      map this does nothing. */
  function TrackTranslation(host: Host, value: string, id: string, language: Option<string>, now: nat): (r: Host)
    ensures GetMemoryMap(host).None? ==> r == host
    ensures GetMemoryMap(host).Some? ==>
      var m := GetMemoryMap(host).value;
      && r.Some? && r.value == host.value.(memoryMap := r.value.memoryMap)
      && GetMemoryMap(r).Some?
      && var m' := GetMemoryMap(r).value;
      && OrderedMap.Keys(m') == OrderedMap.Keys(m) + {value}
      && OrderedMap.Get(m', value).Some?
      && var e := OrderedMap.Get(m', value).value;
      && id in e.ids
      && (OrderedMap.Get(m, value).Some? ==> e.ids == OrderedMap.Get(m, value).value.ids + {id})
      && (OrderedMap.Get(m, value).None? ==> e.ids == {id})
      && e.kind == Text
      && e.metadata == Some(Metadata(language, Some(now)))
      && (forall k | k != value :: OrderedMap.Get(m', k) == OrderedMap.Get(m, k))
      && (value in OrderedMap.Keys(m) ==> |m'| == |m| && forall i | 0 <= i < |m| :: m'[i].0 == m[i].0)
      && (value !in OrderedMap.Keys(m) ==> |m'| == |m| + 1 && m'[..|m|] == m && m'[|m|].0 == value)
  {
    match host
    case None => host
    case Some(win) =>
      match win.memoryMap
      case None => host
      case Some(m) =>
        var e := Tracked(OrderedMap.Get(m, value), id, language, now);
        WithMap(win, OrderedMap.Set(m, value, e))
  }

  /** In iteration order, tracking appends a new value and leaves the order
      of the map as it was for a known one. */
  lemma TrackOrder(host: Host, value: string, id: string, language: Option<string>, now: nat)
    requires GetMemoryMap(host).Some?
    ensures var m := GetMemoryMap(host).value;
      var m' := GetMemoryMap(TrackTranslation(host, value, id, language, now)).value;
      && OrderedMap.KeyOrder(m') == OrderedMap.KeyOrder(m) + (if value in OrderedMap.Keys(m) then [] else [value])
      && OrderedMap.Keys(m') == OrderedMap.Keys(m) + {value}
  {
    var m := GetMemoryMap(host).value;
    var m' := GetMemoryMap(TrackTranslation(host, value, id, language, now)).value;
    if value !in OrderedMap.Keys(m) {
      assert forall i | 0 <= i < |m| :: m'[i] == m'[..|m|][i] == m[i];
    }
  }

  /** Every entry of the map has at least one id. */
  predicate NonEmptyIds(m: Store) {
    forall i | 0 <= i < |m| :: m[i].1.ids != {}
  }

  /** Tracking keeps every entry's id set non-empty. */
  lemma TrackKeepsIdsNonEmpty(host: Host, value: string, id: string, language: Option<string>, now: nat)
    requires GetMemoryMap(host).Some? && NonEmptyIds(GetMemoryMap(host).value)
    ensures NonEmptyIds(GetMemoryMap(TrackTranslation(host, value, id, language, now)).value)
  {
    var m := GetMemoryMap(host).value;
    var m' := GetMemoryMap(TrackTranslation(host, value, id, language, now)).value;
    forall i | 0 <= i < |m'| ensures m'[i].1.ids != {} {
      var k := m'[i].0;
      assert OrderedMap.Get(m', k) == Some(m'[i].1);
      if k != value {
        var j :| 0 <= j < |m| && m[j].0 == k;
        assert OrderedMap.Get(m, k) == Some(m[j].1);
      }
    }
  }

  /** The store records that `id` produced `value`. */
  predicate Records(host: Host, value: string, id: string) {
    match GetMemoryMap(host)
    case None => false
    case Some(m) =>
      match OrderedMap.Get(m, value)
      case None => false
      case Some(e) => id in e.ids
  }

  /** Tracking records its pair and forgets nothing recorded before: id sets
      only grow. */
  lemma TrackRecords(host: Host, value: string, id: string, language: Option<string>, now: nat)
    ensures var r := TrackTranslation(host, value, id, language, now);
      && (GetMemoryMap(host).Some? ==> Records(r, value, id))
      && forall v, i | Records(host, v, i) :: Records(r, v, i)
  {
  }

  /** Tracking the same (value, id) twice leaves the id set as after once. */
  lemma TrackTwiceSameIds(host: Host, value: string, id: string, language: Option<string>, t1: nat, t2: nat)
    requires GetMemoryMap(host).Some?
    ensures var h1 := TrackTranslation(host, value, id, language, t1);
      var h2 := TrackTranslation(h1, value, id, language, t2);
      OrderedMap.Get(GetMemoryMap(h2).value, value).value.ids
        == OrderedMap.Get(GetMemoryMap(h1).value, value).value.ids
  {
  }

  /** Tracking one value with two ids on an empty map gives one entry with
      both ids. */
  lemma TrackTwoIds(host: Host, value: string, id1: string, id2: string, language: Option<string>, t1: nat, t2: nat)
    requires GetMemoryMap(host) == Some([])
    ensures var h := TrackTranslation(TrackTranslation(host, value, id1, language, t1), value, id2, language, t2);
      var m := GetMemoryMap(h).value;
      |m| == 1 && m[0].0 == value && m[0].1.ids == {id1, id2}
  {
  }

  /** Outcome of `cleanupMemoryMap`: the host afterwards and whether the call
      threw. */
  datatype Cleanup = Cleanup(host: Host, threw: bool)

  /** Deletes the `size - maxSize` least recently tracked entries (ties: earlier
      in map order first) when the map holds more than `maxSize`. A negative
      `maxSize` makes the deletion loop run past the end of the sorted array:
      every entry is deleted and the next `entries[i].key` throws. */
  function CleanupMemoryMap(host: Host, maxSize: int): (r: Cleanup)
    ensures GetMemoryMap(host).None? ==> r == Cleanup(host, false)
    ensures GetMemoryMap(host).Some? && |GetMemoryMap(host).value| <= maxSize ==> r == Cleanup(host, false)
    ensures GetMemoryMap(host).Some? ==>
      var m := GetMemoryMap(host).value;
      && r.host.Some? && r.host.value == host.value.(memoryMap := r.host.value.memoryMap)
      && GetMemoryMap(r.host).Some?
      && var m' := GetMemoryMap(r.host).value;
      && Eviction.OldestRemoved(m, m')
      && (0 <= maxSize < |m| ==> |m'| == maxSize && !r.threw)
      && (maxSize < 0 ==> m' == [] && r.threw)
  {
    match host
    case None => Cleanup(host, false)
    case Some(win) =>
      match win.memoryMap
      case None => Cleanup(host, false)
      case Some(m) =>
        if |m| <= maxSize then
          OrderedMap.FilterNothing(m);
          assert OrderedMap.Keys(m) - OrderedMap.Keys(m) == {};
          Cleanup(host, false)
        else
          var toRemove := |m| - maxSize;
          var count := if toRemove <= |m| then toRemove else |m|;
          var kept := OrderedMap.DeleteAll(m, Eviction.Victims(m, count));
          Eviction.EvictOldest(m, count);
          Cleanup(WithMap(win, kept), toRemove > |m|)
  }

  /** Eviction deletes entries whole: the entries it keeps are untouched, so
      every id set stays non-empty. */
  lemma CleanupKeepsIdsNonEmpty(host: Host, maxSize: int)
    requires GetMemoryMap(host).Some? && NonEmptyIds(GetMemoryMap(host).value)
    ensures NonEmptyIds(GetMemoryMap(CleanupMemoryMap(host, maxSize).host).value)
  {
    var m := GetMemoryMap(host).value;
    var m' := GetMemoryMap(CleanupMemoryMap(host, maxSize).host).value;
    forall j | 0 <= j < |m'| ensures m'[j].1.ids != {} {
      assert m'[j] in m;
    }
  }

  /** The most recently tracked value survives any cleanup that keeps at
      least one entry, with its entry unchanged. */
  lemma NewestKept(host: Host, maxSize: int, value: string)
    requires GetMemoryMap(host).Some? && maxSize >= 1
    requires var m := GetMemoryMap(host).value;
      forall i, j | 0 <= i < |m| && 0 <= j < |m| && m[i].0 == value && m[j].0 != value
        :: Timestamp(m[j].1) < Timestamp(m[i].1)
    ensures OrderedMap.Get(GetMemoryMap(CleanupMemoryMap(host, maxSize).host).value, value)
              == OrderedMap.Get(GetMemoryMap(host).value, value)
  {
    var m := GetMemoryMap(host).value;
    var m' := GetMemoryMap(CleanupMemoryMap(host, maxSize).host).value;
    OrderedMap.FilterKeys(m, OrderedMap.Keys(m) - OrderedMap.Keys(m'));
    if value in OrderedMap.Keys(m) && |m| > maxSize {
      var i :| 0 <= i < |m| && m[i].0 == value;
      assert m'[0] in m;
      var j :| 0 <= j < |m| && m[j] == m'[0];
      assert m[j].0 in OrderedMap.Keys(m');
      if j != i {
        assert !Eviction.EvictedBefore(m, i, j);
        Eviction.KeptIfNotBefore(m, m', i, j);
      }
      var q :| 0 <= q < |m'| && m'[q].0 == value;
      assert m'[q] in m;
      var p :| 0 <= p < |m| && m[p] == m'[q];
      assert p == i;
    }
  }

  /** Three values tracked at increasing times: cleanup to 2 entries removes
      the oldest and keeps the other two in order. */
  lemma EvictionScenario(win: Window, k1: string, k2: string, k3: string, e1: Entry, e2: Entry, e3: Entry)
    requires k1 != k2 && k1 != k3 && k2 != k3
    requires Timestamp(e1) < Timestamp(e2) < Timestamp(e3)
    requires win.memoryMap == Some([(k1, e1), (k2, e2), (k3, e3)])
    ensures CleanupMemoryMap(Some(win), 2)
      == Cleanup(Some(win.(memoryMap := Some([(k2, e2), (k3, e3)]))), false)
  {
    var m := win.memoryMap.value;
    var c := CleanupMemoryMap(Some(win), 2);
    var m' := GetMemoryMap(c.host).value;
    Eviction.OldestAloneRemoved(m, m');
  }
}
