# Translation tracking of the Contentstorage react-intl plugin, in Dafny

The plugin is a drop-in replacement for react-intl's `IntlProvider`. When the
page runs inside the Contentstorage live editor, it wraps `formatMessage` to
record which message ids rendered which strings. These records go into a
`Map` stored on `window.memoryMap`, so the editor can map clicked text back
to content ids. The store is capped: the least recently tracked values are
evicted first.

This project models that core and proves properties of the model:

- `Types`: the shape of the store (value → entry with an id set, a kind and
  metadata) and the browser globals the plugin touches. "No browser" is
  `None`.
- `OrderedMap`: the JavaScript `Map` the store is built on. It is an
  insertion-ordered list of pairs with unique keys. It has a reference
  `Filter` that `Delete` and repeated deletion are proved equal to.
- `Detector`: `detectLiveEditorMode`.
- `Tracking`: `getMemoryMap`, `initializeMemoryMap`, `trackTranslation` and
  `cleanupMemoryMap`. The clock (`Date.now()`) is the parameter `now`.
- `Eviction`: the order `cleanupMemoryMap` evicts in. The stable sort by
  timestamp is modelled as a sort by (timestamp, map position). The module
  also holds the proof that exactly the oldest entries are deleted.
- `Flatten`: `flattenMessages`, proved equal to an independent reference
  that lists the string leaves by path.
- `Loader`: the single-flight script loader `loadLiveEditorScript`. It is an
  event-driven state machine whose DOM and timer effects are recorded in a
  log.
- `Debug`: `debugMemoryMap`, written as a report value instead of console
  output.
- `Provider`: the composition inside `ContentstorageIntlProvider`. It covers
  detection, store creation, starting the loader, tracking of the static
  messages and the `formatMessage` wrapper. react-intl's own formatter is a
  function parameter.

Where the code and the plugin's documented options differ, the model follows
the code:

- The provider accepts a `liveEditorParam` prop but always detects with the
  fixed name `contentstorage_live_editor` (`Provider.LiveEditorParamIgnored`).
- A negative `maxMemoryMapSize` makes `cleanupMemoryMap` delete every entry.
  Its loop then reads `.key` of a missing array element, which throws.
  The model returns the emptied store and a `threw` flag.

## Model

| member | source | states |
|---|---|---|
| OrderedMap.Get | src/utils.ts:157 | a lookup succeeds exactly for present keys and returns the value paired with the key |
| OrderedMap.Set | src/utils.ts:170 | after `set` the key maps to the new value, every other key keeps its value, keys stay unique, a present key keeps its position and a new key is appended at the end |
| OrderedMap.Delete | src/utils.ts:206 | `delete` cuts out exactly the pair holding that key and keeps the rest in order, leaves the map as it was for an absent key, keeps keys unique and leaves every other key's value as it was |
| OrderedMap.DeleteAll | src/utils.ts:205-207 | deleting keys one after the other is the same as filtering out the whole set of them at once, in map order |
| OrderedMap.FilterSize | src/utils.ts:205-207 | dropping a set of keys removes exactly one pair per dropped key that is present |
| Types.Timestamp | src/utils.ts:195 | an entry's eviction time is its `trackedAt`, and 0 when the metadata or `trackedAt` is missing |
| Detector.DetectLiveEditorMode | src/utils.ts:25-49 | forcing wins; otherwise no browser or a throwing `window.top` means not live, and live holds exactly when the page is framed and the query has the parameter |
| Detector.LiveNeedsEveryCondition | src/utils.ts:29-47 | unforced detection is live if and only if there is a browser, `top` is readable, the page is framed and the marker is present |
| Detector.NotFramedIsNotLive | src/utils.ts:36-43 | a top-level page with the marker in its query is not live |
| Tracking.GetMemoryMap | src/utils.ts:134-137 | there is a map exactly when there is a browser and its slot is set, and then it is that slot's map |
| Tracking.InitializeMemoryMap | src/utils.ts:54-63 | without a browser nothing happens; an empty slot gets an empty map; an existing map is kept and returned; afterwards the slot holds the returned map |
| Tracking.InitializeIdempotent | src/utils.ts:58-62 | initializing twice is the same as initializing once |
| Tracking.Tracked | src/utils.ts:157-168 | the written entry's ids are the earlier ids plus the new id (just the id for a new value), with kind text and metadata (language, now) |
| Tracking.TrackTranslation | src/utils.ts:147-170 | without a map nothing changes; otherwise the value becomes a key whose ids gain the id, language and time are overwritten, other keys keep their entries, a known value keeps its position, a new one is appended, and nothing else in `window` changes |
| Tracking.TrackOrder | src/utils.ts:157-170 | in iteration order, tracking a new value appends it and tracking a known value leaves the order as it was; the key set gains the value |
| Tracking.TrackKeepsIdsNonEmpty | src/utils.ts:157-170 | tracking preserves the invariant that every entry has at least one id |
| Tracking.TrackRecords | src/utils.ts:153-170 | after tracking, the store records that the id produced the value, and every (value, id) it recorded before is still recorded |
| Tracking.TrackTwiceSameIds | src/utils.ts:158-159 | tracking the same (value, id) again does not change the value's id set |
| Tracking.TrackTwoIds | src/utils.ts:157-170 | two ids rendering the same value on an empty store share one entry holding both ids |
| Tracking.CleanupMemoryMap | src/utils.ts:187-208 | without a map, or with at most `maxSize` entries, nothing changes; otherwise the kept entries are the original ones in map order, every removed entry is older than every kept one (ties: earlier in the map first), exactly `maxSize` remain, and a negative `maxSize` empties the map and throws |
| Tracking.CleanupKeepsIdsNonEmpty | src/utils.ts:204-207 | eviction preserves the invariant that every entry has at least one id |
| Tracking.NewestKept | src/utils.ts:192-207 | an entry strictly newer than all others survives any cleanup with `maxSize` at least 1, unchanged |
| Tracking.EvictionScenario | src/utils.ts:187-208 | three values tracked at increasing times, cleaned up to two: the oldest goes, the other two stay in order, and nothing throws |
| Eviction.Candidates | src/utils.ts:192-196 | one record per entry in map order, carrying its key, its eviction time and its position |
| Eviction.Sort | src/utils.ts:199 | the sorted records are in (timestamp, map position) order and are a permutation of the input |
| Eviction.Victims | src/utils.ts:199-206 | the victims are `count` distinct keys of the map, taken from the front of the sorted array, and every entry among them comes before every entry not among them in eviction order |
| Eviction.VictimsDropped | src/utils.ts:202-207 | deleting the victims removes exactly `count` entries, and the removed keys are exactly the victims |
| Eviction.VictimsFirst | src/utils.ts:198-207 | every victim comes before every non-victim in eviction order |
| Eviction.EvictOldest | src/utils.ts:198-207 | deleting the victims leaves `size - count` entries, and every removed entry precedes every kept one in eviction order |
| Eviction.KeptIfNotBefore | src/utils.ts:198-207 | an entry that does not precede some kept entry is itself kept |
| Eviction.RemovedIfNotAfter | src/utils.ts:198-207 | an entry that some removed entry does not precede is itself removed |
| Eviction.OldestAloneRemoved | src/utils.ts:198-207 | when one entry must go and the first entry is no newer than any other, the result is the map minus its first entry |
| Flatten.FlattenMessages | src/utils.ts:217-238 | the flattened list is the reference list of string leaves in pre-order, each keyed by its path joined onto the prefix |
| Flatten.JoinKey | src/utils.ts:227 | an empty prefix yields the bare key, any other prefix yields `prefix.key` |
| Flatten.FlattenIsRenderedLeaves | src/utils.ts:217-238 | flattening lists exactly the string leaves in pre-order, skipping non-objects and arrays, each keyed by its path joined onto the prefix |
| Flatten.KeyOfDotted | src/utils.ts:227-233 | below a non-empty prefix every nesting level appends `.key` |
| Flatten.TopLevelKeyIsDotted | src/utils.ts:227-233 | a leaf whose top-level key is non-empty is keyed by its path joined with dots |
| Flatten.EmptyOuterKeyIsSwallowed | src/utils.ts:227 | an empty outer key adds no segment, because the empty prefix is falsy |
| Flatten.NestedExample | src/utils.ts:223-237 | `{a: {b, c}}` with a non-string sibling flattens to `a.b` and `a.c` only |
| Loader.LoadLiveEditorScript | src/utils.ts:71-86 | the first call injects attempt 1, or settles false without a window; any later call changes nothing, whatever its arguments |
| Loader.Step | src/utils.ts:99-123 | `onload` settles true; `onerror` removes the script and arms the retry timer while `attempt < retries`, otherwise settles false; the timer injects the next attempt; a settled loader never changes and the log only grows |
| Loader.StepKeepsInv | src/utils.ts:90-125 | every event preserves the invariant relating the phase to the log of injections, removals and retry waits |
| Loader.RunKeepsInv | src/utils.ts:90-125 | every reachable loader state satisfies that invariant |
| Loader.InjectionsBounded | src/utils.ts:90-125 | under any interleaving of calls and browser callbacks, at most `max(1, retries)` scripts are injected |
| Loader.FailureExhaustsAttempts | src/utils.ts:106-119 | a false outcome after a started load means all `max(1, retries)` attempts were injected and removed, with the fixed delay between them |
| Loader.SettledIsFinal | src/utils.ts:76-79 | once settled, no call or event changes the loader, so every caller sees the first outcome |
| Loader.LaterCallsIgnored | src/utils.ts:76-79 | after the first call, further calls change nothing |
| Loader.TwoFailuresExample | src/utils.ts:90-125 | with two retries and both attempts failing: inject 1, remove 1, wait 3000, inject 2, remove 2, then false |
| Debug.DebugMemoryMap | src/utils.ts:243-264 | reports "not initialized" exactly when there is no map; otherwise the total, exactly min(10, size) rows in map order, each holding the first min(50, length) characters of its value and its ids, and the count of rows not shown |
| Debug.NewValueShown | src/utils.ts:253-262 | a value tracked for the first time into a store of fewer than ten entries appears as the last preview row with just its id |
| Provider.HasId | src/provider.tsx:112 | a descriptor's id is truthy exactly when it is present and not the empty string |
| Provider.TrackAll | src/provider.tsx:98-101 | tracking the static messages one by one leaves a store-less host alone, changes nothing in `window` but the store, and keeps a store present |
| Provider.TrackAllOrder | src/provider.tsx:98-101 | static tracking keeps every earlier key in place and appends the new values in the order the flattened messages first produce them |
| Provider.TrackAllStamps | src/provider.tsx:98-101 | after static tracking, every message value's entry carries the locale and the mount time |
| Provider.TrackAllOthers | src/provider.tsx:98-101 | static tracking leaves the entry of every other value as it was |
| Provider.TrackAllKeys | src/provider.tsx:97-101 | tracking the static messages evicts nothing: the keys afterwards are the earlier keys plus all message values |
| Provider.TrackAllKeepsRecords | src/provider.tsx:97-101 | tracking the static messages forgets nothing recorded before |
| Provider.TrackAllRecords | src/provider.tsx:97-101 | after tracking the static messages, every flattened (id, value) pair is recorded |
| Provider.CreateIntl | src/provider.tsx:55-133 | the tracked object is returned exactly when detection (with the fixed parameter name) says live; otherwise nothing is touched; live mode starts the loader with (2, 3000) and tracks the static messages in flatten order: every pair is recorded, earlier keys stay in place, new values are appended in first-occurrence order, each is stamped with the locale and the mount time, other entries are untouched, and nothing recorded before is forgotten |
| Provider.LiveEditorParamIgnored | src/provider.tsx:45-57 | the `liveEditorParam` prop has no effect on the result |
| Provider.IntlIndependentOfLoader | src/provider.tsx:86-95 | the loader's state does not affect the intl object or the store |
| Provider.FormatMessage | src/provider.tsx:108-122 | the wrapper returns react-intl's result unchanged or throws, and throws only for a negative size cap; the base object and non-string or id-less calls leave the store alone; a string with a truthy id is tracked, and then a zero cap skips cleanup while any other cap applies the cleanup to the tracked store, the call throwing exactly when the cleanup does; without a store nothing changes; with a store a negative cap empties it and throws; a positive cap bounds the store size |
| Provider.JustTrackedSurvives | src/provider.tsx:108-119 | a string tracked later than everything in the store is still recorded after the wrapper's cleanup whenever the cap is at least 1 |

## Left out

- React itself is not modelled: `useMemo` memoisation, `RawIntlProvider` and rendering of children. `CreateIntl` models one evaluation of the memoised body. The memo's dependencies include the `intlConfig` rest object, which is rebuilt on every render, so the body in fact runs again on each render. It then re-tracks the static messages with a fresh time. Each such run is `CreateIntl` applied to the `World` the previous one produced.
- react-intl's `createIntl`, `createIntlCache` and the real `formatMessage` are foreign code. The formatter is a parameter, and the intl object is reduced to "base" or "tracked with locale and cap".
- The DOM, `setTimeout` and the CDN URL are left out. Script injection, removal and the retry timer are log actions, and browser callbacks are events.
- `URLSearchParams` parsing is not modelled. The window carries the already-parsed query keys.
- Cross-origin access to `window.top` is a boolean saying the access throws.
- `Date.now()` is the parameter `now`. The static messages at mount are all tracked with one reading.
- Console logging, the `debug` flag's messages and `__contentStorageDebug` are left out. The `debug` prop is carried but has no effect on state.
- Provider prop defaults (`messages = {}`, `debug = false`, `forceLiveMode = false`, `maxMemoryMapSize = 10000`) are not modelled. The caller passes resolved values.
- `maxMemoryMapSize` is an integer. Fractional values and `NaN` are not modelled.
- Loader.LoadLiveEditorScript: `retries` and `delay` are integers. A fractional `retries` would give its ceiling in attempts, and `NaN` would give one attempt; neither is modelled. Only the provider's fixed (2, 3000) reaches the loader, since `src/index.ts` does not export it.
- A message id set is a mathematical set. `debugMemoryMap` joins the ids in insertion order, which the model does not keep.
- Strings are sequences of characters. The 50-character truncation counts UTF-16 code units in the source, and the model does not model that encoding.
- Messages are modelled as an object with keys in enumeration order. A non-object top-level `messages` value is not modelled.
- Inherited enumerable properties (the `hasOwnProperty` filter) are not modelled. A message object has only own keys.
- `isBrowser` and `getContentstorageWindow` are folded into `Host`, and `src/index.ts` is only re-exports.
- The loader's `resolve` is not a JavaScript promise. Awaiting it and running `.then` callbacks are left out.
- Tracking.CleanupMemoryMap: the thrown `TypeError` is a flag. The wrapper turns it into `Threw`, and the model does not say what the caller does with it.
