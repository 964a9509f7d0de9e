/** `debugMemoryMap` (src/utils.ts) as a pure report instead of console
    output. */
module Debug {
  import opened Wrappers
  import opened Types
  import OrderedMap
  import Tracking

  /** One preview line: the value cut to 50 characters and its ids. */
  datatype Row = Row(value: string, ids: set<string>)

  datatype Report =
    | NotInitialized
    | Contents(total: nat, preview: seq<Row>, more: nat)

  const PreviewRows: nat := 10
  const PreviewWidth: nat := 50

  function Min(a: nat, b: nat): nat {
    if a <= b then a else b
  }

  /** The entry count, the first ten entries in map order with their values
      truncated, and how many entries the preview leaves out. */
  function DebugMemoryMap(host: Host): (r: Report)
    ensures Tracking.GetMemoryMap(host).None? <==> r.NotInitialized?
    ensures r.Contents? ==>
      var m := Tracking.GetMemoryMap(host).value;
      && r.total == |m| == |r.preview| + r.more
      && |r.preview| <= PreviewRows
      && |r.preview| == Min(PreviewRows, |m|)
      && (|m| <= PreviewRows ==> r.more == 0)
      && forall i | 0 <= i < |r.preview| ::
           && r.preview[i].value <= m[i].0
           && |r.preview[i].value| <= PreviewWidth
           && |r.preview[i].value| == Min(PreviewWidth, |m[i].0|)
           && (|m[i].0| <= PreviewWidth ==> r.preview[i].value == m[i].0)
           && r.preview[i].ids == m[i].1.ids
  {
    match Tracking.GetMemoryMap(host)
    case None => NotInitialized
    case Some(m) =>
      var shown := Min(PreviewRows, |m|);
      var preview := seq(shown, i requires 0 <= i < shown =>
        Row(m[i].0[..Min(PreviewWidth, |m[i].0|)], m[i].1.ids));
      Contents(|m|, preview, |m| - shown)
  }

  /** A value tracked for the first time into a store of fewer than ten
      entries shows up as the last preview row, with just its id. */
  lemma NewValueShown(host: Host, value: string, id: string, language: Option<string>, now: nat)
    requires Tracking.GetMemoryMap(host).Some?
    requires |Tracking.GetMemoryMap(host).value| < PreviewRows && |value| <= PreviewWidth
    requires value !in OrderedMap.Keys(Tracking.GetMemoryMap(host).value)
    ensures var n := |Tracking.GetMemoryMap(host).value|;
      var r := DebugMemoryMap(Tracking.TrackTranslation(host, value, id, language, now));
      r.Contents? && r.total == n + 1 && r.more == 0 && r.preview[n] == Row(value, {id})
  {
    var n := |Tracking.GetMemoryMap(host).value|;
    var m' := Tracking.GetMemoryMap(Tracking.TrackTranslation(host, value, id, language, now)).value;
    assert OrderedMap.Get(m', value) == Some(m'[n].1);
  }
}
