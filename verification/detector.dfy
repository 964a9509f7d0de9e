/** Live-editor detection (`detectLiveEditorMode`, src/utils.ts). */
module Detector {
  import opened Wrappers
  import opened Types

  /** The default query parameter, also the one the provider passes. */
  const LiveEditorParam: string := "contentstorage_live_editor"

  /** Live mode is on when forced; otherwise only in a browser whose page is
      framed and whose query string has the parameter as a key (any value).
      A throwing access to `window.top` is caught and reads as "not live". */
  function DetectLiveEditorMode(param: string, forceLiveMode: bool, host: Host): (live: bool)
    ensures forceLiveMode ==> live
    ensures !forceLiveMode && host.None? ==> !live
    ensures !forceLiveMode && host.Some? && host.value.topAccessThrows ==> !live
    ensures !forceLiveMode && host.Some? && !host.value.topAccessThrows ==>
              (live <==> host.value.inIframe && param in host.value.queryKeys)
  {
    if forceLiveMode then true
    else match host
      case None => false
      case Some(win) =>
        if win.topAccessThrows then false
        else win.inIframe && param in win.queryKeys
  }

  /** Detection is fail-closed: without forcing, live mode needs a browser, a
      readable `window.top` different from `self`, and the marker; dropping
      any one of them turns it off. */
  lemma LiveNeedsEveryCondition(param: string, host: Host)
    ensures DetectLiveEditorMode(param, false, host) <==>
              host.Some? && !host.value.topAccessThrows && host.value.inIframe
              && param in host.value.queryKeys
  {
  }

  /** Scenario: top-level page (not framed) with the marker present is not live. */
  lemma NotFramedIsNotLive(win: Window)
    requires !win.inIframe && LiveEditorParam in win.queryKeys
    ensures !DetectLiveEditorMode(LiveEditorParam, false, Some(win))
  {
  }
}
