/** The shapes of the tracking store and of the browser globals it lives in
    (src/types.ts). */
module Types {
  import opened Wrappers
  import OrderedMap

  /** The entry discriminator; translations are always `'text'`. */
  datatype Kind = Text

  /** Optional diagnostics of an entry: the last language and the time of the
      last tracking. */
  datatype Metadata = Metadata(language: Option<string>, trackedAt: Option<nat>)

  /** One tracked rendered value: the message ids known to produce it. */
  datatype Entry = Entry(ids: set<string>, kind: Kind, metadata: Option<Metadata>)

  /** The memory map: rendered value -> entry, a JavaScript `Map`. */
  type Store = m: OrderedMap.OMap<Entry> | OrderedMap.Valid(m) witness []

  /** The parts of `window` the plugin reads or writes: whether the page is
      framed (`self !== top`), whether reading `window.top` throws
      (cross-origin), the already-parsed keys of `location.search`, and the
      `memoryMap` slot. */
  datatype Window = Window(
    inIframe: bool,
    topAccessThrows: bool,
    queryKeys: seq<string>,
    memoryMap: Option<Store>)

  /** `None` when there is no `window`/`document`, i.e. not a browser. */
  type Host = Option<Window>

  /** The eviction timestamp of an entry, `metadata?.trackedAt || 0`: a missing
      metadata record or `trackedAt` counts as 0. */
  function Timestamp(e: Entry): (t: nat)
    ensures e.metadata.Some? && e.metadata.value.trackedAt.Some? ==> t == e.metadata.value.trackedAt.value
    ensures e.metadata.None? || e.metadata.value.trackedAt.None? ==> t == 0
  {
    match e.metadata
    case None => 0
    case Some(md) =>
      match md.trackedAt
      case None => 0
      case Some(t) => t
  }
}
