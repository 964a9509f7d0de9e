/** The live/non-live composition inside `ContentstorageIntlProvider`
    (src/provider.tsx): detection, store creation, loader start, tracking of
    the static messages, and the `formatMessage` wrapper. react-intl's own
    `formatMessage` is a function parameter. */
module Provider {
  import opened Wrappers
  import opened Types
  import OrderedMap
  import Tracking
  import Flatten
  import Detector
  import Loader

  /** The provider's props that the composition reads. `liveEditorParam` is
      accepted but is not destructured: it never reaches the detector. */
  datatype Props = Props(
    locale: string,
    messages: seq<(string, Flatten.Msg)>,
    debug: bool,
    forceLiveMode: bool,
    liveEditorParam: Option<string>,
    maxMemoryMapSize: int)

  /** Process-wide state: the `window` and the module-level loader promise. */
  datatype World = World(host: Host, loader: Loader.Loader)

  /** The intl object handed to the app: react-intl's own one, or a copy whose
      `formatMessage` tracks. */
  datatype Intl = BaseIntl | TrackedIntl(locale: string, maxMemoryMapSize: int)

  /** A message descriptor; only `id` matters to the wrapper. */
  datatype Descriptor = Descriptor(id: Option<string>, defaultMessage: Option<string>)

  /** What react-intl's `formatMessage` returns: a string, or rich-text nodes. */
  datatype Formatted = Rendered(text: string) | Nodes

  /** How a `formatMessage` call ends. */
  datatype Completion = Returned(value: Formatted) | Threw

  /** The loader's arguments at mount. */
  const LoadRetries: int := 2
  const LoadDelay: int := 3000

  /** `descriptor.id` is truthy: present and not the empty string. */
  function HasId(d: Descriptor): (b: bool)
    ensures b ==> d.id.Some?
    ensures d.id.Some? ==> (b <==> |d.id.value| > 0)
  {
    d.id.Some? && d.id.value != ""
  }

  /** Tracks the flattened static messages in order, each as
      `trackTranslation(value, id, locale)`; no cleanup in between. */
  function TrackAll(host: Host, pairs: seq<(string, string)>, locale: string, now: nat): (r: Host)
    ensures Tracking.GetMemoryMap(host).None? ==> r == host
    ensures host.Some? ==> r.Some? && r.value == host.value.(memoryMap := r.value.memoryMap)
    ensures Tracking.GetMemoryMap(host).Some? ==> Tracking.GetMemoryMap(r).Some?
    decreases |pairs|
  {
    if |pairs| == 0 then host
    else TrackAll(Tracking.TrackTranslation(host, pairs[0].1, pairs[0].0, Some(locale), now), pairs[1..], locale, now)
  }

  /** The values of a list of (id, value) pairs. */
  function Values(pairs: seq<(string, string)>): set<string> {
    set j | 0 <= j < |pairs| :: pairs[j].1
  }

  lemma ValuesCons(pairs: seq<(string, string)>)
    requires |pairs| > 0
    ensures Values(pairs) == {pairs[0].1} + Values(pairs[1..])
  {
    assert forall j | 1 <= j < |pairs| :: pairs[j] == pairs[1..][j - 1];
  }

  /** The values of a list of (id, value) pairs, in order. */
  function ValueSeq(pairs: seq<(string, string)>): (vs: seq<string>)
    ensures |vs| == |pairs|
    ensures forall j | 0 <= j < |pairs| :: vs[j] == pairs[j].1
  {
    seq(|pairs|, j requires 0 <= j < |pairs| => pairs[j].1)
  }

  /** Reference order of appended keys: each value of `vals` outside `known`,
      at its first occurrence. */
  function NewKeys(known: set<string>, vals: seq<string>): seq<string>
    decreases |vals|
  {
    if |vals| == 0 then []
    else if vals[0] in known then NewKeys(known, vals[1..])
    else [vals[0]] + NewKeys(known + {vals[0]}, vals[1..])
  }

  /** Static tracking keeps every earlier key in place and appends the new
      values in the order the flattened messages first produce them. */
  lemma {:induction false} TrackAllOrder(host: Host, pairs: seq<(string, string)>, locale: string, now: nat)
    requires Tracking.GetMemoryMap(host).Some?
    ensures var m := Tracking.GetMemoryMap(host).value;
      OrderedMap.KeyOrder(Tracking.GetMemoryMap(TrackAll(host, pairs, locale, now)).value)
        == OrderedMap.KeyOrder(m) + NewKeys(OrderedMap.Keys(m), ValueSeq(pairs))
    decreases |pairs|
  {
    if |pairs| > 0 {
      var known := OrderedMap.Keys(Tracking.GetMemoryMap(host).value);
      var v := pairs[0].1;
      var h1 := Tracking.TrackTranslation(host, v, pairs[0].0, Some(locale), now);
      Tracking.TrackOrder(host, v, pairs[0].0, Some(locale), now);
      TrackAllOrder(h1, pairs[1..], locale, now);
      var vals := ValueSeq(pairs);
      assert vals[1..] == ValueSeq(pairs[1..]);
      assert NewKeys(known, vals) == (if v in known then [] else [v]) + NewKeys(known + {v}, vals[1..]) by {
        if v in known {
          assert known + {v} == known;
        }
      }
    }
  }

  /** Static tracking leaves the entries of all other values as they were. */
  lemma {:induction false} TrackAllOthers(host: Host, pairs: seq<(string, string)>, locale: string, now: nat)
    requires Tracking.GetMemoryMap(host).Some?
    ensures var m' := Tracking.GetMemoryMap(TrackAll(host, pairs, locale, now)).value;
      forall k | k !in Values(pairs) ::
        OrderedMap.Get(m', k) == OrderedMap.Get(Tracking.GetMemoryMap(host).value, k)
    decreases |pairs|
  {
    if |pairs| > 0 {
      var h1 := Tracking.TrackTranslation(host, pairs[0].1, pairs[0].0, Some(locale), now);
      TrackAllOthers(h1, pairs[1..], locale, now);
      ValuesCons(pairs);
    }
  }

  /** Every static message's entry ends up stamped with the locale and the
      mount time. */
  lemma {:induction false} TrackAllStamps(host: Host, pairs: seq<(string, string)>, locale: string, now: nat)
    requires Tracking.GetMemoryMap(host).Some?
    ensures var m' := Tracking.GetMemoryMap(TrackAll(host, pairs, locale, now)).value;
      forall j | 0 <= j < |pairs| ::
        && OrderedMap.Get(m', pairs[j].1).Some?
        && OrderedMap.Get(m', pairs[j].1).value.metadata == Some(Metadata(Some(locale), Some(now)))
    decreases |pairs|
  {
    if |pairs| > 0 {
      var v := pairs[0].1;
      var h1 := Tracking.TrackTranslation(host, v, pairs[0].0, Some(locale), now);
      TrackAllStamps(h1, pairs[1..], locale, now);
      TrackAllOthers(h1, pairs[1..], locale, now);
      assert forall j | 1 <= j < |pairs| :: pairs[j] == pairs[1..][j - 1];
    }
  }

  /** Static tracking evicts nothing: the keys afterwards are the earlier
      keys plus the tracked values, whatever `maxMemoryMapSize` is. */
  lemma {:induction false} TrackAllKeys(host: Host, pairs: seq<(string, string)>, locale: string, now: nat)
    requires Tracking.GetMemoryMap(host).Some?
    ensures OrderedMap.Keys(Tracking.GetMemoryMap(TrackAll(host, pairs, locale, now)).value)
              == OrderedMap.Keys(Tracking.GetMemoryMap(host).value) + Values(pairs)
    decreases |pairs|
  {
    if |pairs| > 0 {
      var h := Tracking.TrackTranslation(host, pairs[0].1, pairs[0].0, Some(locale), now);
      TrackAllKeys(h, pairs[1..], locale, now);
      ValuesCons(pairs);
    }
  }

  /** Static tracking forgets nothing recorded before. */
  lemma {:induction false} TrackAllKeepsRecords(host: Host, pairs: seq<(string, string)>, locale: string, now: nat)
    ensures forall v, id | Tracking.Records(host, v, id) :: Tracking.Records(TrackAll(host, pairs, locale, now), v, id)
    decreases |pairs|
  {
    if |pairs| > 0 {
      var h := Tracking.TrackTranslation(host, pairs[0].1, pairs[0].0, Some(locale), now);
      Tracking.TrackRecords(host, pairs[0].1, pairs[0].0, Some(locale), now);
      TrackAllKeepsRecords(h, pairs[1..], locale, now);
    }
  }

  /** After tracking the static messages every (id, value) pair is recorded. */
  lemma {:induction false} TrackAllRecords(host: Host, pairs: seq<(string, string)>, locale: string, now: nat)
    requires Tracking.GetMemoryMap(host).Some?
    ensures forall j | 0 <= j < |pairs| :: Tracking.Records(TrackAll(host, pairs, locale, now), pairs[j].1, pairs[j].0)
    decreases |pairs|
  {
    if |pairs| > 0 {
      var h := Tracking.TrackTranslation(host, pairs[0].1, pairs[0].0, Some(locale), now);
      Tracking.TrackRecords(host, pairs[0].1, pairs[0].0, Some(locale), now);
      TrackAllRecords(h, pairs[1..], locale, now);
      TrackAllKeepsRecords(h, pairs[1..], locale, now);
      assert forall j | 1 <= j < |pairs| :: pairs[j] == pairs[1..][j - 1];
    }
  }

  /** The `useMemo` body: the intl object and the world after mounting. */
  function CreateIntl(props: Props, world: World, now: nat): (r: (Intl, World))
    // detection always uses the fixed marker name, never `liveEditorParam`
    ensures r.0.TrackedIntl? <==>
      Detector.DetectLiveEditorMode(Detector.LiveEditorParam, props.forceLiveMode, world.host)
    // not live: react-intl's object, nothing initialized, loaded or tracked
    ensures r.0.BaseIntl? ==> r.1 == world
    ensures r.0.TrackedIntl? ==>
      && r.0 == TrackedIntl(props.locale, props.maxMemoryMapSize)
      // the loader is started with (2, 3000); its outcome feeds nothing back
      && r.1.loader == Loader.LoadLiveEditorScript(world.loader, LoadRetries, LoadDelay, world.host.Some?)
      && (world.host.Some? ==>
           var pairs := Flatten.FlattenMessages(props.messages, "");
           var before := Tracking.InitializeMemoryMap(world.host).1.value;
           && Tracking.GetMemoryMap(r.1.host).Some?
           // every static message is recorded under its value ...
           && (forall j | 0 <= j < |pairs| :: Tracking.Records(r.1.host, pairs[j].1, pairs[j].0))
           // ... and nothing is evicted, whatever maxMemoryMapSize is
           && OrderedMap.Keys(Tracking.GetMemoryMap(r.1.host).value)
                == OrderedMap.Keys(before) + Values(pairs))
      && (world.host.None? ==> r.1.host == None)
    // live in a browser: the static messages are tracked one by one in
    // flatten order, all with the locale and the one mount time `now`
    ensures r.0.TrackedIntl? && world.host.Some? ==>
      var pairs := Flatten.FlattenMessages(props.messages, "");
      var (h1, before) := Tracking.InitializeMemoryMap(world.host);
      var after := Tracking.GetMemoryMap(r.1.host).value;
      && r.1.host == TrackAll(h1, pairs, props.locale, now)
      // earlier keys stay in place; new values follow in first-occurrence order
      && OrderedMap.KeyOrder(after)
           == OrderedMap.KeyOrder(before.value) + NewKeys(OrderedMap.Keys(before.value), ValueSeq(pairs))
      && (forall j | 0 <= j < |pairs| ::
            OrderedMap.Get(after, pairs[j].1).value.metadata == Some(Metadata(Some(props.locale), Some(now))))
      && (forall k | k !in Values(pairs) :: OrderedMap.Get(after, k) == OrderedMap.Get(before.value, k))
    // mounting forgets nothing the store recorded before
    ensures forall v, id | Tracking.Records(world.host, v, id) :: Tracking.Records(r.1.host, v, id)
  {
    var live := Detector.DetectLiveEditorMode(Detector.LiveEditorParam, props.forceLiveMode, world.host);
    if !live then (BaseIntl, world)
    else
      var (h1, _) := Tracking.InitializeMemoryMap(world.host);
      var loader := Loader.LoadLiveEditorScript(world.loader, LoadRetries, LoadDelay, world.host.Some?);
      var pairs := Flatten.FlattenMessages(props.messages, "");
      var h2 := TrackAll(h1, pairs, props.locale, now);
      if h1.Some? then
        TrackAllRecords(h1, pairs, props.locale, now);
        TrackAllKeys(h1, pairs, props.locale, now);
        TrackAllOrder(h1, pairs, props.locale, now);
        TrackAllStamps(h1, pairs, props.locale, now);
        TrackAllOthers(h1, pairs, props.locale, now);
        TrackAllKeepsRecords(h1, pairs, props.locale, now);
        (TrackedIntl(props.locale, props.maxMemoryMapSize), World(h2, loader))
      else
      (TrackedIntl(props.locale, props.maxMemoryMapSize), World(h2, loader))
  }

  /** The `liveEditorParam` prop has no effect. */
  lemma LiveEditorParamIgnored(props: Props, param: Option<string>, world: World, now: nat)
    ensures CreateIntl(props.(liveEditorParam := param), world, now) == CreateIntl(props, world, now)
  {
  }

  /** The returned intl object and the store do not depend on the loader. */
  lemma IntlIndependentOfLoader(props: Props, host: Host, l1: Loader.Loader, l2: Loader.Loader, now: nat)
    ensures CreateIntl(props, World(host, l1), now).0 == CreateIntl(props, World(host, l2), now).0
    ensures CreateIntl(props, World(host, l1), now).1.host == CreateIntl(props, World(host, l2), now).1.host
  {
  }

  /** A call of the intl object's `formatMessage`. The tracked wrapper returns
      exactly what react-intl returns; when that is a string and the
      descriptor has a truthy id it tracks (value, id, locale) and then, if
      `maxMemoryMapSize` is truthy, cleans up. */
  function FormatMessage(intl: Intl, format: Descriptor -> Formatted, d: Descriptor, host: Host, now: nat): (r: (Completion, Host))
    ensures r.0 == Returned(format(d)) || r.0 == Threw
    ensures r.0 == Threw ==> intl.TrackedIntl? && intl.maxMemoryMapSize < 0
    ensures intl.BaseIntl? ==> r == (Returned(format(d)), host)
    ensures intl.TrackedIntl? && !(format(d).Rendered? && HasId(d)) ==> r == (Returned(format(d)), host)
    ensures intl.TrackedIntl? && format(d).Rendered? && HasId(d) ==>
      var tracked := Tracking.TrackTranslation(host, format(d).text, d.id.value, Some(intl.locale), now);
      && (intl.maxMemoryMapSize == 0 ==> r == (Returned(format(d)), tracked))
      // a truthy cap cleans up the tracked store; the call throws exactly
      // when the cleanup does
      && (intl.maxMemoryMapSize != 0 ==>
            var c := Tracking.CleanupMemoryMap(tracked, intl.maxMemoryMapSize);
            r == (if c.threw then Threw else Returned(format(d)), c.host))
      // without a store nothing is tracked or cleaned, and nothing throws
      && (Tracking.GetMemoryMap(host).None? ==> r == (Returned(format(d)), host))
      // with a store, a negative cap always throws, leaving it empty
      && (Tracking.GetMemoryMap(host).Some? && intl.maxMemoryMapSize < 0 ==>
            r.0 == Threw && Tracking.GetMemoryMap(r.1) == Some([]))
      && (intl.maxMemoryMapSize > 0 ==>
            r.0 == Returned(format(d))
            && (Tracking.GetMemoryMap(host).Some? ==>
                  Tracking.GetMemoryMap(r.1).Some? &&
                  |Tracking.GetMemoryMap(r.1).value| <= intl.maxMemoryMapSize))
  {
    var result := format(d);
    match intl
    case BaseIntl => (Returned(result), host)
    case TrackedIntl(locale, maxSize) =>
      if result.Rendered? && HasId(d) then
        var tracked := Tracking.TrackTranslation(host, result.text, d.id.value, Some(locale), now);
        if maxSize != 0 then
          var c := Tracking.CleanupMemoryMap(tracked, maxSize);
          (if c.threw then Threw else Returned(result), c.host)
        else
          (Returned(result), tracked)
      else
        (Returned(result), host)
  }

  /** A rendered string tracked at a time later than every entry already in
      the store is still recorded after the wrapper's cleanup, whenever
      `maxMemoryMapSize` is at least 1. */
  lemma JustTrackedSurvives(intl: Intl, format: Descriptor -> Formatted, d: Descriptor, host: Host, now: nat)
    requires intl.TrackedIntl? && intl.maxMemoryMapSize >= 1
    requires format(d).Rendered? && HasId(d) && Tracking.GetMemoryMap(host).Some?
    requires var m := Tracking.GetMemoryMap(host).value;
      forall i | 0 <= i < |m| :: Timestamp(m[i].1) < now
    ensures Tracking.Records(FormatMessage(intl, format, d, host, now).1, format(d).text, d.id.value)
  {
    var value := format(d).text;
    var m := Tracking.GetMemoryMap(host).value;
    var tracked := Tracking.TrackTranslation(host, value, d.id.value, Some(intl.locale), now);
    var m1 := Tracking.GetMemoryMap(tracked).value;
    forall i, j | 0 <= i < |m1| && 0 <= j < |m1| && m1[i].0 == value && m1[j].0 != value
      ensures Timestamp(m1[j].1) < Timestamp(m1[i].1)
    {
      var k := m1[j].0;
      assert OrderedMap.Get(m1, value) == Some(m1[i].1);
      assert OrderedMap.Get(m1, k) == Some(m1[j].1);
      assert k in OrderedMap.Keys(m);
      var p :| 0 <= p < |m| && m[p].0 == k;
      assert OrderedMap.Get(m, k) == Some(m[p].1);
    }
    Tracking.NewestKept(tracked, intl.maxMemoryMapSize, value);
  }
}
