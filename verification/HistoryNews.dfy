/** What the history takes over from a report: names, categories and details, from one refresh to the end of a sweep. */
module HistoryNews {
  import opened Options
  import opened Text
  import opened HistoryRecords
  import opened HistoryCleanup
  import opened HistorySweep
  import opened Sequences

  // ---- One refresh

  /** Reported text is the text held afterwards; what is not reported stays. */
  predicate Updated(old': Option<string>, reported: Option<string>, held: Option<string>) {
    (reported.Some? ==> held == reported) && (reported.None? ==> held == old')
  }

  /**
   A name that is neither "Host ..." nor "net-..." is always taken, one that is only over another such name; so for
   categories and "network-device".
   */
  lemma RefreshNames(r: Record, d: Device, now: Time)
    ensures var r' := Refreshed(r, d, now);
      && (!("Host " <= d.displayName) && !("net-" <= d.displayName) ==> r'.displayName == d.displayName)
      && ("Host " <= d.displayName || "net-" <= d.displayName ==>
            r'.displayName == if "Host " <= r.displayName || "net-" <= r.displayName then d.displayName else r.displayName)
      && (d.category.kind != "network-device" ==> r'.category == d.category)
      && (d.category.kind == "network-device" ==>
            r'.category == if r.category.kind == "network-device" then d.category else r.category)
  {
  }

  /** Every detail that is reported is held afterwards, the product's name with its id, and the others stay. */
  lemma RefreshDetails(r: Record, d: Device, now: Time)
    ensures var (o, n, h) := (r.details, d.details, Refreshed(r, d, now).details);
      && Updated(o.hostname, n.hostname, h.hostname) && Updated(o.vendor, n.vendor, h.vendor)
      && Updated(o.vendorId, n.vendorId, h.vendorId) && Updated(o.productId, n.productId, h.productId)
      && Updated(o.webUrl, n.webUrl, h.webUrl) && Updated(o.matterFabrics, n.matterFabrics, h.matterFabrics)
      && h.productName == (if n.productId.Some? then n.productName else o.productName)
  {
  }

  /**
   The record is moved to the report's address, interface and source, keeps its id and its first sighting, gathers what
   was listed before and now, and is active as reported; only an active device counts as seen.
   */
  lemma RefreshMoves(r: Record, d: Device, now: Time)
    ensures var r' := Refreshed(r, d, now);
      && r'.deviceId == r.deviceId && r'.firstSeen == r.firstSeen
      && r'.ip == d.ip && r'.interface == d.interface && r'.source == d.source && Updated(r.mac, d.mac, r'.mac)
      && Elements(r'.sources) == Elements(r.sources) + Elements(d.sources) + (if d.source == "" then {} else {d.source})
      && Elements(r'.capabilities) == Elements(r.capabilities) + Elements(d.capabilities)
      && (d.isActive == Some(false) ==> !r'.isActive && r'.lastSeen == r.lastSeen && r'.wasEverActive == r.wasEverActive)
      && (d.isActive != Some(false) ==> r'.isActive && r'.lastSeen == now && r'.wasEverActive)
  {
    WithMissingUnites(r.sources, d.sources);
    WithMissingUnites(r.capabilities, d.capabilities);
    AppendOne(WithMissing(r.sources, d.sources), d.source);
  }

  // ---- A whole sweep

  predicate Reports(reported: Option<string>, held: Option<string>) {
    reported.Some? ==> held == reported
  }

  /** The record says what the report says, as far as the report is specific. */
  ghost predicate Tells(r: Record, d: Device) {
    && (!("Host " <= d.displayName) && !("net-" <= d.displayName) ==> r.displayName == d.displayName)
    && (d.category.kind != "network-device" ==> r.category == d.category)
    && r.interface == d.interface && r.source == d.source
    && Elements(d.sources) <= Elements(r.sources) && Elements(d.capabilities) <= Elements(r.capabilities)
    && Reports(d.details.hostname, r.details.hostname) && Reports(d.details.vendor, r.details.vendor)
    && Reports(d.details.vendorId, r.details.vendorId) && Reports(d.details.webUrl, r.details.webUrl)
    && Reports(d.details.matterFabrics, r.details.matterFabrics)
    && (d.details.productId.Some? ==>
          r.details.productId == d.details.productId && r.details.productName == d.details.productName)
  }

  lemma MergeStillTells(t: Record, g: Record, d: Device)
    requires Tells(t, d)
    ensures Tells(Merged(t, g), d)
  {
    WithMissingUnites(t.sources, g.sources);
    WithMissingUnites(t.capabilities, g.capabilities);
    AppendOne(WithMissing(t.sources, g.sources), g.source);
  }

  lemma AppliedTells(m: Store, d: Device, now: Time, pick: Option<string>)
    ensures Has(Applied(m, d, now, pick), TargetKey(d)) && Tells(Applied(m, d, now, pick)[TargetKey(d)], d)
  {
    if pick.Some? && pick.value in m {
      RefreshMoves(m[pick.value], d, now);
    }
  }

  lemma {:induction false} SweptTells(m: Store, devs: seq<Device>, now: Time, picks: seq<Option<string>>, k: string)
    requires |picks| == |devs| && LastFor(devs, k).Some? && Has(Swept(m, devs, now, picks), k)
    ensures Tells(Swept(m, devs, now, picks)[k], LastFor(devs, k).value)
  {
    var n := |devs| - 1;
    var st := Swept(m, devs[..n], now, picks[..n]);
    AppliedTells(st, devs[n], now, picks[n]);
    if TargetKey(devs[n]) != k {
      AppliedTouchesOneKey(st, devs[n], now, picks[n]);
      SweptTells(m, devs[..n], now, picks[..n], k);
    }
  }

  /**
   After a sweep the record of every swept MAC says what the last entry with that MAC says: its name and category if
   they are specific, its details, its interface and source. Neither a generic name nor a ghost takes that away.
   */
  lemma SweptMacTellsTheNews(before: Store, devs: seq<Device>, now: Time, after: Store, d: Device)
    requires Tidy(before) && GoodSweep(devs)
    requires Reconciled(before, devs, now, after) && d in devs && d.mac.Some?
    ensures var a := Norm(d.mac.value);
      LastFor(devs, a).Some? && Has(after, a) && Tells(after[a], LastFor(devs, a).value)
  {
    var picks :| ReconciledVia(before, devs, now, picks, after);
    var marked, a := MissingMarked(Swept(before, devs, now, picks), SeenKeys(devs)), TargetKey(d);
    MacBeforeCleanup(before, devs, now, picks, d);
    assert GoodDevice(d) && Has(Swept(before, devs, now, picks), a);
    SweptTells(before, devs, now, picks, a);
    var w := LastFor(devs, a).value;
    forall t: Record, g: Record | Tells(t, w) ensures Tells(Merged(t, g), w) {
      MergeStillTells(t, g, w);
    }
    CleanupAdvances(marked, after, a, (r: Record, t: Record) => Tells(t, w));
  }
}
