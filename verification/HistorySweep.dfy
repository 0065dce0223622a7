/**
 One reconciliation of a sweep against the history. Where the source takes whichever record a hash map
 yields first, the pick is an explicit argument.
 */
module HistorySweep {
  import opened Options
  import opened Text
  import opened HistoryRecords
  import opened HistoryCleanup
  import opened Sequences

  /** A device found by the scanner. */
  datatype Device = Device(
    deviceId: string, displayName: string, category: Category, ip: string, mac: Option<string>,
    interface: string, details: Details, capabilities: seq<string>, source: string, sources: seq<string>,
    isActive: Option<bool>)

  function TargetKey(d: Device): string {
    RecordKey(d.mac, d.deviceId)
  }

  predicate ActiveIn(d: Device) {
    d.isActive.GetOr(true)
  }

  function RefreshedDetails(r: Details, d: Details): Details {
    Details(
      Either(d.hostname, r.hostname),
      Either(d.vendor, r.vendor),
      Either(d.vendorId, r.vendorId),
      Either(d.productId, r.productId),
      if d.productId.Some? then d.productName else r.productName,
      Either(d.webUrl, r.webUrl),
      Either(d.matterFabrics, r.matterFabrics))
  }

  /** A known record after its device was found in a sweep. */
  function Refreshed(r: Record, d: Device, now: Time): Record {
    Record(
      r.deviceId,
      if !GenericName(d.displayName) || GenericName(r.displayName) then d.displayName else r.displayName,
      if d.category.kind != GENERIC_KIND || r.category.kind == GENERIC_KIND then d.category else r.category,
      d.ip,
      Either(d.mac, r.mac),
      d.interface,
      RefreshedDetails(r.details, d.details),
      WithMissing(r.capabilities, d.capabilities),
      d.source,
      WithSource(WithMissing(r.sources, d.sources), d.source),
      r.firstSeen,
      if ActiveIn(d) then now else r.lastSeen,
      ActiveIn(d),
      r.wasEverActive || ActiveIn(d))
  }

  /** The record of a device seen for the first time. */
  function Created(d: Device, now: Time): Record {
    Record(
      d.deviceId, d.displayName, d.category, d.ip, d.mac, d.interface, d.details, d.capabilities, d.source,
      if d.sources == [] && d.source != "" then [d.source] else d.sources,
      now, now, ActiveIn(d), ActiveIn(d))
  }

  /** Reporting the same device twice in one sweep is reporting it once. */
  lemma RefreshIsIdempotent(r: Record, d: Device, now: Time)
    ensures Refreshed(Refreshed(r, d, now), d, now) == Refreshed(r, d, now)
  {
    var sources := WithMissing(r.sources, d.sources);
    WithMissingUnites(r.sources, d.sources);
    WithMissingUnites(r.capabilities, d.capabilities);
    AppendOne(sources, d.source);
    assert Elements(d.sources) <= Elements(WithSource(sources, d.source));
    NothingMissing(WithSource(sources, d.source), d.sources);
    NothingMissing(WithMissing(r.capabilities, d.capabilities), d.capabilities);
    assert d.source == "" || d.source in WithSource(sources, d.source);
  }

  /** A new record is what refreshing it with its own report gives, up to listing the reporting source. */
  lemma CreatedIsSettled(d: Device, now: Time)
    ensures Refreshed(Created(d, now), d, now).(sources := []) == Created(d, now).(sources := [])
    ensures Elements(Refreshed(Created(d, now), d, now).sources) == AllSources(d.sources, d.source)
  {
    NothingMissing(d.capabilities, d.capabilities);
    WithMissingUnites(Created(d, now).sources, d.sources);
    AppendOne(WithMissing(Created(d, now).sources, d.sources), d.source);
  }

  // ---- Matching

  /** The record's MAC, if any, has the same spelling as the device's. */
  predicate SameMac(r: Record, d: Device) {
    r.mac.Some? && d.mac.Some? && Norm(r.mac.value) == Norm(d.mac.value)
  }

  ghost predicate MacKnown(m: Store, d: Device) {
    exists k :: Has(m, k) && SameMac(m[k], d)
  }

  ghost predicate IpKnown(m: Store, d: Device) {
    d.ip != "" && exists k :: Has(m, k) && m[k].ip == d.ip
  }

  /** `pick` is a record the source may match the device with: by key, else by MAC, else by IP. */
  ghost predicate Matches(m: Store, d: Device, pick: Option<string>) {
    if TargetKey(d) in m then pick == Some(TargetKey(d))
    else if MacKnown(m, d) then pick.Some? && Has(m, pick.value) && SameMac(m[pick.value], d)
    else if IpKnown(m, d) then pick.Some? && Has(m, pick.value) && m[pick.value].ip == d.ip
    else pick == None
  }

  function Applied(m: Store, d: Device, now: Time, pick: Option<string>): Store {
    if pick.Some? && pick.value in m then
      (m - {pick.value})[TargetKey(d) := Refreshed(m[pick.value], d, now)]
    else
      m[TargetKey(d) := Created(d, now)]
  }

  /** The store after the first loop of a sweep. */
  function Swept(m: Store, devs: seq<Device>, now: Time, picks: seq<Option<string>>): Store
    requires |picks| == |devs|
  {
    if devs == [] then m
    else
      var n := |devs| - 1;
      Applied(Swept(m, devs[..n], now, picks[..n]), devs[n], now, picks[n])
  }

  ghost predicate GoodPicks(m: Store, devs: seq<Device>, now: Time, picks: seq<Option<string>>) {
    |picks| == |devs| &&
    (devs != [] ==>
      var n := |devs| - 1;
      && GoodPicks(m, devs[..n], now, picks[..n])
      && Matches(Swept(m, devs[..n], now, picks[..n]), devs[n], picks[n]))
  }

  function SeenKeys(devs: seq<Device>): set<string> {
    set d | d in devs :: TargetKey(d)
  }

  function MissingMarked(m: Store, seen: set<string>): Store {
    map k | k in m :: if k in seen then m[k] else m[k].(isActive := false)
  }

  /** Filing one more device. */
  lemma FiledNext(m: Store, devs: seq<Device>, now: Time, picks: seq<Option<string>>, d: Device, pick: Option<string>)
    requires GoodPicks(m, devs, now, picks) && Matches(Swept(m, devs, now, picks), d, pick)
    ensures GoodPicks(m, devs + [d], now, picks + [pick])
    ensures Swept(m, devs + [d], now, picks + [pick]) == Applied(Swept(m, devs, now, picks), d, now, pick)
    ensures SeenKeys(devs + [d]) == SeenKeys(devs) + {TargetKey(d)}
  {
    assert (devs + [d])[..|devs|] == devs && (picks + [pick])[..|picks|] == picks;
    assert d in devs + [d];
  }

  ghost predicate ReconciledVia(
    before: Store, devs: seq<Device>, now: Time, picks: seq<Option<string>>, after: Store)
  {
    && GoodPicks(before, devs, now, picks)
    && CleanedUp(MissingMarked(Swept(before, devs, now, picks), SeenKeys(devs)), after)
  }

  /** `after` is a possible outcome of reconciling the sweep `devs` at time `now`. */
  ghost predicate Reconciled(before: Store, devs: seq<Device>, now: Time, after: Store) {
    exists picks :: ReconciledVia(before, devs, now, picks, after)
  }

  // ---- Who wrote a key

  /** The last entry of the sweep that writes under `key`. */
  function LastFor(devs: seq<Device>, key: string): Option<Device> {
    if devs == [] then None
    else if TargetKey(devs[|devs| - 1]) == key then Some(devs[|devs| - 1])
    else LastFor(devs[..|devs| - 1], key)
  }

  lemma {:induction false} LastForIsLast(devs: seq<Device>, key: string)
    ensures LastFor(devs, key).Some? <==> key in SeenKeys(devs)
    ensures LastFor(devs, key).Some? ==> LastFor(devs, key).value in devs && TargetKey(LastFor(devs, key).value) == key
  {
    if devs != [] {
      var n := |devs| - 1;
      assert devs == devs[..n] + [devs[n]];
      LastForIsLast(devs[..n], key);
    }
  }

  ghost predicate WrittenBy(r: Record, d: Device) {
    r.ip == d.ip && r.isActive == ActiveIn(d) && (d.mac.Some? ==> r.mac == d.mac)
  }

  /** In the first loop, a key is either untouched or carries what the last entry for it wrote. */
  ghost predicate Accounted(m: Store, devs: seq<Device>, st: Store) {
    forall k :: Has(st, k) ==>
      match LastFor(devs, k)
      case None => Has(m, k) && st[k] == m[k]
      case Some(d) => WrittenBy(st[k], d)
  }

  /** One step rewrites one key; all others are as before or gone. */
  lemma AppliedTouchesOneKey(m: Store, d: Device, now: Time, pick: Option<string>)
    ensures var m' := Applied(m, d, now, pick);
      && Has(m', TargetKey(d)) && WrittenBy(m'[TargetKey(d)], d)
      && (forall k :: Has(m', k) && k != TargetKey(d) ==> Has(m, k) && m'[k] == m[k] && pick != Some(k))
  {
  }

  lemma {:induction false} SweptIsAccounted(m: Store, devs: seq<Device>, now: Time, picks: seq<Option<string>>)
    requires |picks| == |devs|
    ensures Accounted(m, devs, Swept(m, devs, now, picks))
  {
    if devs != [] {
      var n := |devs| - 1;
      SweptIsAccounted(m, devs[..n], now, picks[..n]);
      AppliedTouchesOneKey(Swept(m, devs[..n], now, picks[..n]), devs[n], now, picks[n]);
    }
  }

  function Unmatched(picks: seq<Option<string>>): nat {
    if picks == [] then 0
    else Unmatched(picks[..|picks| - 1]) + if picks[|picks| - 1].None? then 1 else 0
  }

  /** Re-keying never overwrites another record: the count grows by exactly one for each unmatched device. */
  lemma {:induction false} SweptCountsUp(m: Store, devs: seq<Device>, now: Time, picks: seq<Option<string>>)
    requires GoodPicks(m, devs, now, picks)
    ensures |Swept(m, devs, now, picks)| == |m| + Unmatched(picks)
  {
    if devs != [] {
      var n := |devs| - 1;
      SweptCountsUp(m, devs[..n], now, picks[..n]);
      var st, st', key := Swept(m, devs[..n], now, picks[..n]), Swept(m, devs, now, picks), TargetKey(devs[n]);
      assert |st'.Keys| == |st'| && |st.Keys| == |st|;
      if picks[n].None? {
        assert key !in st && st'.Keys == st.Keys + {key};
      } else {
        assert Has(st, picks[n].value);
        assert st'.Keys == st.Keys - {picks[n].value} + {key};
      }
    }
  }

  // ---- Times and activity, on any sweep

  ghost predicate Timely(r: Record, now: Time) {
    r.firstSeen <= r.lastSeen <= now && (r.isActive ==> r.wasEverActive)
  }

  ghost predicate AllTimely(m: Store, now: Time) {
    forall k :: Has(m, k) ==> Timely(m[k], now)
  }

  /** Timely, and active only if seen at this very moment. */
  ghost predicate Current(r: Record, now: Time) {
    Timely(r, now) && (r.isActive ==> r.lastSeen == now)
  }

  lemma AppliedIsCurrent(m: Store, d: Device, now: Time, pick: Option<string>)
    requires AllTimely(m, now)
    ensures AllTimely(Applied(m, d, now, pick), now) && Current(Applied(m, d, now, pick)[TargetKey(d)], now)
  {
    AppliedTouchesOneKey(m, d, now, pick);
    assert pick.Some? && pick.value in m ==> Has(m, pick.value);
  }

  ghost predicate SeenAreCurrent(st: Store, seen: set<string>, now: Time) {
    forall k :: Has(st, k) && k in seen ==> Current(st[k], now)
  }

  lemma AppliedKeepsCurrent(st: Store, seen: set<string>, d: Device, now: Time, pick: Option<string>)
    requires AllTimely(st, now) && SeenAreCurrent(st, seen, now)
    ensures AllTimely(Applied(st, d, now, pick), now)
    ensures SeenAreCurrent(Applied(st, d, now, pick), seen + {TargetKey(d)}, now)
  {
    AppliedIsCurrent(st, d, now, pick);
    AppliedTouchesOneKey(st, d, now, pick);
  }

  lemma {:induction false} SweptIsTimely(m: Store, devs: seq<Device>, now: Time, picks: seq<Option<string>>)
    requires |picks| == |devs| && AllTimely(m, now)
    ensures AllTimely(Swept(m, devs, now, picks), now)
    ensures SeenAreCurrent(Swept(m, devs, now, picks), SeenKeys(devs), now)
  {
    if devs != [] {
      var n := |devs| - 1;
      SweptIsTimely(m, devs[..n], now, picks[..n]);
      SeenKeysNext(devs);
      AppliedKeepsCurrent(Swept(m, devs[..n], now, picks[..n]), SeenKeys(devs[..n]), devs[n], now, picks[n]);
    }
  }

  lemma SeenKeysNext(devs: seq<Device>)
    requires devs != []
    ensures SeenKeys(devs) == SeenKeys(devs[..|devs| - 1]) + {TargetKey(devs[|devs| - 1])}
  {
    var n := |devs| - 1;
    assert devs == devs[..n] + [devs[n]];
  }

  lemma MarkedIsCurrent(m: Store, seen: set<string>, now: Time)
    requires AllTimely(m, now) && SeenAreCurrent(m, seen, now)
    ensures forall k :: Has(MissingMarked(m, seen), k) ==> Current(MissingMarked(m, seen)[k], now)
  {
    assert forall k :: Has(MissingMarked(m, seen), k) ==> Has(m, k);
  }

  lemma MergingCurrent(a: Record, b: Record, now: Time)
    requires Current(a, now) && Current(b, now)
    ensures Current(Merged(a, b), now)
  {
  }

  lemma CleanupKeepsCurrent(before: Store, after: Store, now: Time)
    requires CleanedUp(before, after) && forall k :: Has(before, k) ==> Current(before[k], now)
    ensures forall k :: Has(after, k) ==> Current(after[k], now)
  {
    var p: Record -> bool := r => Current(r, now);
    forall a, b | p(a) && p(b) ensures p(Merged(a, b)) {
      MergingCurrent(a, b, now);
    }
    CleanupPreserves(before, after, p);
  }

  /**
   After any sweep: first_seen <= last_seen <= now, and a record is active only if it was seen at
   `now`; it then counts as ever active.
   */
  lemma ReconciledIsCurrent(before: Store, devs: seq<Device>, now: Time, after: Store)
    requires Reconciled(before, devs, now, after) && AllTimely(before, now)
    ensures forall k :: Has(after, k) ==> Current(after[k], now)
    ensures AllTimely(after, now)
  {
    var picks :| ReconciledVia(before, devs, now, picks, after);
    SweptIsTimely(before, devs, now, picks);
    MarkedIsCurrent(Swept(before, devs, now, picks), SeenKeys(devs), now);
    CleanupKeepsCurrent(MissingMarked(Swept(before, devs, now, picks), SeenKeys(devs)), after, now);
  }

  /** A sweep in which no device is active leaves no record active. */
  lemma QuietSweepSilencesAll(before: Store, devs: seq<Device>, now: Time, after: Store)
    requires Reconciled(before, devs, now, after)
    requires forall d :: d in devs ==> !ActiveIn(d)
    ensures forall k :: Has(after, k) ==> !after[k].isActive
  {
    var picks :| ReconciledVia(before, devs, now, picks, after);
    SweptIsAccounted(before, devs, now, picks);
    var st := Swept(before, devs, now, picks);
    var marked := MissingMarked(st, SeenKeys(devs));
    forall k | Has(marked, k) ensures !marked[k].isActive {
      LastForIsLast(devs, k);
      assert Has(st, k);
    }
    CleanupPreserves(marked, after, (r: Record) => !r.isActive);
  }

  // ---- MACs and ids told apart

  /** Ids made by the scanner and the seeding code start with "net-"; no MAC in any notation does. */
  predicate NetId(s: string) {
    "net-" <= s
  }

  /** A key that can only be a MAC. */
  predicate MacKey(s: string) {
    !NetId(s)
  }

  predicate ToldApart(mac: Option<string>, deviceId: string) {
    NetId(deviceId) && (ValidMac(mac) ==> MacKey(Norm(mac.value)))
  }

  predicate SharedMac(r: Record, t: Record) {
    ValidMac(r.mac) && ValidMac(t.mac) && Norm(r.mac.value) == Norm(t.mac.value)
  }

  /** Keys that are no ids belong to their MAC, and no MAC has two records. */
  ghost predicate Tidy(m: Store) {
    && (forall k :: Has(m, k) ==> ToldApart(m[k].mac, m[k].deviceId))
    && (forall k :: Has(m, k) && MacKey(k) ==> ValidMac(m[k].mac) && Norm(m[k].mac.value) == k)
    && (forall k, j :: Has(m, k) && Has(m, j) && SharedMac(m[k], m[j]) ==> k == j)
  }

  lemma CanonicalIsTidy(m: Store)
    requires Canonical(m)
    requires forall k :: Has(m, k) ==> ToldApart(m[k].mac, m[k].deviceId)
    ensures Tidy(m)
  {
  }

  ghost predicate GoodDevice(d: Device) {
    (d.mac.Some? ==> ValidMac(d.mac)) && ToldApart(d.mac, d.deviceId)
  }

  /** MACs are valid, ids and MACs are told apart, and no two entries share an IP. */
  ghost predicate GoodSweep(devs: seq<Device>) {
    && (forall d :: d in devs ==> GoodDevice(d))
    && (forall i, j :: 0 <= i < j < |devs| && devs[i].ip == devs[j].ip ==> devs[i].ip == "")
  }

  lemma GoodSweepPrefix(devs: seq<Device>)
    requires GoodSweep(devs) && devs != []
    ensures GoodSweep(devs[..|devs| - 1]) && GoodDevice(devs[|devs| - 1])
    ensures forall d :: d in devs[..|devs| - 1] && d.ip == devs[|devs| - 1].ip ==> d.ip == ""
  {
    var n := |devs| - 1;
    assert forall d :: d in devs[..n] ==> d in devs;
    assert devs[n] in devs;
  }

  /** A matched device with a MAC takes over the one record of that MAC, if there is one. */
  lemma MacHolderIsPicked(m: Store, d: Device, pick: Option<string>, k: string)
    requires Tidy(m) && GoodDevice(d) && Matches(m, d, pick) && d.mac.Some?
    requires Has(m, k) && ValidMac(m[k].mac) && Norm(m[k].mac.value) == TargetKey(d)
    ensures pick == Some(k)
  {
    var key := TargetKey(d);
    assert SameMac(m[k], d);
    assert key in m ==> Has(m, key) && SharedMac(m[key], m[k]);
    assert key !in m ==> MacKnown(m, d) && SharedMac(m[pick.value], m[k]);
  }

  /** Tidiness survives one rewritten key if the new record is well keyed and shares its MAC with no other. */
  lemma RewritingStaysTidy(m: Store, m': Store, key: string, r: Record)
    requires Tidy(m) && key in m' && m'[key] == r && ToldApart(r.mac, r.deviceId)
    requires MacKey(key) ==> ValidMac(r.mac) && Norm(r.mac.value) == key
    requires forall k :: Has(m', k) && k != key ==> Has(m, k) && m'[k] == m[k] && !SharedMac(m[k], r)
    ensures Tidy(m')
  {
  }

  /** The record written by a step shares its MAC only with the record that was picked for it. */
  lemma SharesOnlyWithPicked(m: Store, d: Device, now: Time, pick: Option<string>, k: string)
    requires Tidy(m) && GoodDevice(d) && Matches(m, d, pick)
    requires Has(m, k) && SharedMac(m[k], Applied(m, d, now, pick)[TargetKey(d)])
    ensures pick == Some(k)
  {
    if d.mac.Some? {
      MacHolderIsPicked(m, d, pick, k);
    } else if pick.Some? {
      assert Has(m, pick.value) && SharedMac(m[k], m[pick.value]);
    }
  }

  lemma AppliedStaysTidy(m: Store, d: Device, now: Time, pick: Option<string>)
    requires Tidy(m) && GoodDevice(d) && Matches(m, d, pick)
    ensures Tidy(Applied(m, d, now, pick))
  {
    var m', key := Applied(m, d, now, pick), TargetKey(d);
    AppliedTouchesOneKey(m, d, now, pick);
    if pick.Some? {
      assert Has(m, pick.value);
      assert m'[key].deviceId == m[pick.value].deviceId && m'[key].mac == Either(d.mac, m[pick.value].mac);
    } else {
      assert m'[key].deviceId == d.deviceId && m'[key].mac == d.mac;
    }
    forall k | Has(m', k) && k != key ensures !SharedMac(m[k], m'[key]) {
      if SharedMac(m[k], m'[key]) {
        SharesOnlyWithPicked(m, d, now, pick, k);
      }
    }
    RewritingStaysTidy(m, m', key, m'[key]);
  }

  lemma {:induction false} SweptStaysTidy(m: Store, devs: seq<Device>, now: Time, picks: seq<Option<string>>)
    requires Tidy(m) && GoodSweep(devs) && GoodPicks(m, devs, now, picks)
    ensures Tidy(Swept(m, devs, now, picks))
  {
    if devs != [] {
      var n := |devs| - 1;
      GoodSweepPrefix(devs);
      SweptStaysTidy(m, devs[..n], now, picks[..n]);
      AppliedStaysTidy(Swept(m, devs[..n], now, picks[..n]), devs[n], now, picks[n]);
    }
  }

  lemma MarkingStaysTidy(m: Store, seen: set<string>)
    requires Tidy(m)
    ensures Tidy(MissingMarked(m, seen))
  {
    var marked := MissingMarked(m, seen);
    assert forall k :: Has(marked, k) ==> Has(m, k) && marked[k].mac == m[k].mac && marked[k].deviceId == m[k].deviceId;
    assert forall k, j :: Has(marked, k) && Has(marked, j) && SharedMac(marked[k], marked[j]) ==> SharedMac(m[k], m[j]);
  }

  /** A sweep leaves the store in normal form, and tidy if it was. */
  lemma ReconciledIsNormal(before: Store, devs: seq<Device>, now: Time, after: Store)
    requires Reconciled(before, devs, now, after)
    ensures NormalForm(after)
    ensures Tidy(before) && GoodSweep(devs) ==> Tidy(after)
  {
    var picks :| ReconciledVia(before, devs, now, picks, after);
    var marked := MissingMarked(Swept(before, devs, now, picks), SeenKeys(devs));
    CleanupNormalises(marked, after);
    if Tidy(before) && GoodSweep(devs) {
      SweptStaysTidy(before, devs, now, picks);
      MarkingStaysTidy(Swept(before, devs, now, picks), SeenKeys(devs));
      CleanupPreserves(marked, after, (r: Record) => ToldApart(r.mac, r.deviceId));
      CanonicalIsTidy(after);
    }
  }

  // ---- Where swept devices end

  /** Distinct IPs keep later entries of the sweep away from records that earlier ones wrote. */
  lemma {:induction false} SweptMacsArrive(m: Store, devs: seq<Device>, now: Time, picks: seq<Option<string>>)
    requires GoodSweep(devs) && GoodPicks(m, devs, now, picks)
    ensures forall d :: d in devs && d.mac.Some? ==> Has(Swept(m, devs, now, picks), TargetKey(d))
  {
    if devs != [] {
      var n := |devs| - 1;
      GoodSweepPrefix(devs);
      SweptMacsArrive(m, devs[..n], now, picks[..n]);
      SweptIsAccounted(m, devs[..n], now, picks[..n]);
      assert devs == devs[..n] + [devs[n]];
      var st := Swept(m, devs[..n], now, picks[..n]);
      forall d | d in devs[..n] && d.mac.Some? ensures Has(Applied(st, devs[n], now, picks[n]), TargetKey(d)) {
        ArrivedIsNotPicked(m, devs[..n], st, d, devs[n], picks[n]);
        UnpickedStays(st, devs[n], now, picks[n], TargetKey(d));
      }
      AppliedTouchesOneKey(st, devs[n], now, picks[n]);
    }
  }

  lemma UnpickedStays(st: Store, d: Device, now: Time, pick: Option<string>, k: string)
    requires Has(st, k) && (pick == Some(k) ==> TargetKey(d) == k)
    ensures Has(Applied(st, d, now, pick), k)
  {
  }

  lemma ArrivedIsNotPicked(
    m: Store, devs: seq<Device>, st: Store, d: Device, e: Device, pick: Option<string>)
    requires GoodSweep(devs) && Accounted(m, devs, st) && GoodDevice(e) && Matches(st, e, pick)
    requires forall x :: x in devs && x.ip == e.ip ==> x.ip == ""
    requires d in devs && d.mac.Some? && Has(st, TargetKey(d))
    ensures pick == Some(TargetKey(d)) ==> TargetKey(e) == TargetKey(d)
  {
    var key := TargetKey(d);
    LastForIsLast(devs, key);
    var w := LastFor(devs, key).value;
    assert GoodDevice(w) && GoodDevice(d);
    assert w.mac.Some? by { assert MacKey(key); }
    assert WrittenBy(st[key], w);
  }

  /** While a sweep runs over a canonical store, an untouched key has no second record bound for it. */
  ghost predicate UntouchedIsLonely(st: Store, seen: set<string>) {
    forall j, k :: Has(st, j) && Has(st, k) && k !in seen && KeyOf(st[j]) == k ==> j == k
  }

  lemma {:induction false} SweptKeepsLonely(m: Store, devs: seq<Device>, now: Time, picks: seq<Option<string>>)
    requires Canonical(m) && GoodSweep(devs) && GoodPicks(m, devs, now, picks)
    ensures UntouchedIsLonely(Swept(m, devs, now, picks), SeenKeys(devs))
  {
    if devs != [] {
      var n := |devs| - 1;
      GoodSweepPrefix(devs);
      SweptKeepsLonely(m, devs[..n], now, picks[..n]);
      SeenKeysNext(devs);
      AppliedKeepsLonely(Swept(m, devs[..n], now, picks[..n]), SeenKeys(devs[..n]), devs[n], now, picks[n]);
    }
  }

  lemma AppliedKeepsLonely(st: Store, seen: set<string>, d: Device, now: Time, pick: Option<string>)
    requires UntouchedIsLonely(st, seen) && GoodDevice(d) && Matches(st, d, pick)
    ensures UntouchedIsLonely(Applied(st, d, now, pick), seen + {TargetKey(d)})
  {
    var st', key := Applied(st, d, now, pick), TargetKey(d);
    AppliedTouchesOneKey(st, d, now, pick);
    if pick.Some? {
      assert Has(st, pick.value) && st'[key] == Refreshed(st[pick.value], d, now);
      assert KeyOf(st'[key]) == if d.mac.Some? then key else KeyOf(st[pick.value]);
    } else {
      assert KeyOf(st'[key]) == key;
    }
  }

  /** What the sweep leaves under the key of a swept MAC, before clean-up. */
  lemma MacBeforeCleanup(m: Store, devs: seq<Device>, now: Time, picks: seq<Option<string>>, d: Device)
    requires Tidy(m) && GoodSweep(devs) && GoodPicks(m, devs, now, picks) && d in devs && d.mac.Some?
    ensures var a := TargetKey(d);
      var marked := MissingMarked(Swept(m, devs, now, picks), SeenKeys(devs));
      && MacKey(a) && LastFor(devs, a).Some? && LastFor(devs, a).value in devs
      && LastFor(devs, a).value.mac.Some? && TargetKey(LastFor(devs, a).value) == a
      && Has(marked, a) && WrittenBy(marked[a], LastFor(devs, a).value) && KeyOf(marked[a]) == a
      && (forall j :: Has(marked, j) && KeyOf(marked[j]) == a ==> j == a)
  {
    var a, st := TargetKey(d), Swept(m, devs, now, picks);
    var marked := MissingMarked(st, SeenKeys(devs));
    SweptMacsArrive(m, devs, now, picks);
    SweptIsAccounted(m, devs, now, picks);
    LastForIsLast(devs, a);
    var w := LastFor(devs, a).value;
    assert GoodDevice(d) && GoodDevice(w);
    SweptStaysTidy(m, devs, now, picks);
    MarkingStaysTidy(st, SeenKeys(devs));
    forall j | Has(marked, j) && KeyOf(marked[j]) == a ensures j == a {
      assert SharedMac(marked[j], marked[a]);
    }
  }

  /** Two keys of a sweep never carry the same IP: another key on the IP of `a` was not seen. */
  lemma SweptIpsAreDistinct(m: Store, devs: seq<Device>, st: Store, a: string, c: string)
    requires GoodSweep(devs) && Accounted(m, devs, st)
    requires Has(st, a) && a in SeenKeys(devs) && Has(st, c) && c != a
    requires st[c].ip == st[a].ip != ""
    ensures c !in SeenKeys(devs)
  {
    LastForIsLast(devs, a);
    LastForIsLast(devs, c);
  }

  /** An untouched record of a canonical store sits under its own key, alone, and is marked inactive. */
  lemma UntouchedIsInactive(m: Store, devs: seq<Device>, now: Time, picks: seq<Option<string>>, c: string)
    requires Canonical(m) && GoodSweep(devs) && GoodPicks(m, devs, now, picks)
    requires Has(Swept(m, devs, now, picks), c) && c !in SeenKeys(devs)
    ensures var marked := MissingMarked(Swept(m, devs, now, picks), SeenKeys(devs));
      !marked[c].isActive && KeyOf(marked[c]) == c
      && (forall j :: Has(marked, j) && KeyOf(marked[j]) == c ==> j == c)
  {
    var st := Swept(m, devs, now, picks);
    var marked := MissingMarked(st, SeenKeys(devs));
    SweptIsAccounted(m, devs, now, picks);
    LastForIsLast(devs, c);
    assert Has(m, c);
    SweptKeepsLonely(m, devs, now, picks);
    forall j | Has(marked, j) && KeyOf(marked[j]) == c ensures j == c {
      assert Has(st, j) && KeyOf(st[j]) == c;
    }
  }

  /** A ghost on the IP of a swept MAC was not seen, so it is inactive. */
  lemma GhostsOfSweptAreInactive(
    m: Store, devs: seq<Device>, now: Time, picks: seq<Option<string>>, a: string, order: seq<string>, g: string)
    requires Canonical(m) && GoodSweep(devs) && GoodPicks(m, devs, now, picks)
    requires var st := Swept(m, devs, now, picks);
      && Has(st, a) && a in SeenKeys(devs)
      && var marked := MissingMarked(st, SeenKeys(devs));
      && IsOrder(order, marked) && KeyOf(marked[a]) != g
      && g in Rekeyed(marked, order) && Rekeyed(marked, order)[g].ip == st[a].ip != ""
    ensures !Rekeyed(MissingMarked(Swept(m, devs, now, picks), SeenKeys(devs)), order)[g].isActive
  {
    var st := Swept(m, devs, now, picks);
    var marked := MissingMarked(st, SeenKeys(devs));
    var c := RekeyedIpOrigin(marked, order, g);
    assert Has(st, c);
    SweptIsAccounted(m, devs, now, picks);
    SweptIpsAreDistinct(m, devs, st, a, c);
    UntouchedIsInactive(m, devs, now, picks, c);
    LonelyRecordIsMoved(marked, order, c);
  }

  /**
   From a canonical store, every swept device with a MAC ends under exactly that MAC, with the IP and
   the activity of its last entry in the sweep.
   */
  lemma SweptMacEndsUnderItsKey(before: Store, devs: seq<Device>, now: Time, after: Store, d: Device)
    requires Canonical(before) && Tidy(before) && GoodSweep(devs)
    requires Reconciled(before, devs, now, after) && d in devs && d.mac.Some?
    ensures var a := Norm(d.mac.value);
      && LastFor(devs, a).Some? && Has(after, a)
      && WrittenBy(after[a], LastFor(devs, a).value)
      && (forall k :: Has(after, k) && ValidMac(after[k].mac) && Norm(after[k].mac.value) == a ==> k == a)
  {
    var picks :| ReconciledVia(before, devs, now, picks, after);
    var marked := MissingMarked(Swept(before, devs, now, picks), SeenKeys(devs));
    var order, hosts, ghosts :| CleanedUpVia(marked, order, hosts, ghosts, after);
    MacBeforeCleanup(before, devs, now, picks, d);
    assert GoodDevice(d);
    var a, mid := TargetKey(d), Rekeyed(marked, order);
    LonelyRecordIsMoved(marked, order, a);
    AbsorbingKeepsHolders(mid, ghosts, hosts);
    forall g | g in Ghosts(mid, hosts) && mid[g].ip == mid[a].ip ensures !mid[g].isActive {
      GhostsOfSweptAreInactive(before, devs, now, picks, a, order, g);
    }
    AbsorbingInactive(mid, ghosts, hosts, a);
    assert Has(after, a);
    CleanupNormalises(marked, after);
  }

  predicate SameMacs(d: Device, e: Device) {
    d.mac.Some? && e.mac.Some? && Norm(d.mac.value) == Norm(e.mac.value)
  }

  /** Some record holds the device's MAC and has its IP. */
  ghost predicate KeepsOwnRecord(after: Store, d: Device) {
    d.mac.Some? && exists k :: Has(after, k) && ValidMac(after[k].mac) && SameMac(after[k], d) && after[k].ip == d.ip
  }

  lemma OwnRecordIsLast(before: Store, devs: seq<Device>, now: Time, after: Store, d: Device)
    requires Canonical(before) && Tidy(before) && GoodSweep(devs)
    requires Reconciled(before, devs, now, after) && d in devs && d.mac.Some?
    ensures var last := LastFor(devs, TargetKey(d));
      && last.Some? && last.value in devs && SameMacs(last.value, d)
      && (KeepsOwnRecord(after, d) <==> last.value.ip == d.ip)
  {
    SweptMacEndsUnderItsKey(before, devs, now, after, d);
    var a := TargetKey(d);
    LastForIsLast(devs, a);
    assert GoodDevice(d) && GoodDevice(LastFor(devs, a).value);
    ReconciledIsNormal(before, devs, now, after);
    assert Has(after, a);
    if ValidMac(after[a].mac) && SameMac(after[a], d) && after[a].ip == d.ip {
      assert KeepsOwnRecord(after, d);
    }
  }

  /**
   From a canonical store, every swept device with a MAC keeps a record with its own IP if and only if devices that
   share a MAC share their IP too; of several on one MAC all others are lost in the record of the last.
   */
  lemma AllKeepTheirRecordsExactly(before: Store, devs: seq<Device>, now: Time, after: Store)
    requires Canonical(before) && Tidy(before) && GoodSweep(devs) && Reconciled(before, devs, now, after)
    ensures (forall d :: d in devs && d.mac.Some? ==> KeepsOwnRecord(after, d)) <==>
      (forall d, e :: d in devs && e in devs && SameMacs(d, e) ==> d.ip == e.ip)
  {
    forall d | d in devs && d.mac.Some?
      ensures var last := LastFor(devs, TargetKey(d));
        && last.Some? && last.value in devs && SameMacs(last.value, d)
        && (KeepsOwnRecord(after, d) <==> last.value.ip == d.ip)
    {
      OwnRecordIsLast(before, devs, now, after, d);
    }
    forall d, e | d in devs && e in devs && SameMacs(d, e) ensures TargetKey(d) == TargetKey(e) {
      assert GoodDevice(d) && GoodDevice(e);
    }
  }

  // ---- Stores keyed by MAC, and device ids

  /** Every record sits under its valid MAC. */
  ghost predicate KeyedByMac(m: Store) {
    forall k :: Has(m, k) ==> ValidMac(m[k].mac) && Norm(m[k].mac.value) == k
  }

  lemma {:induction false} SweptStaysKeyedByMac(m: Store, devs: seq<Device>, now: Time, picks: seq<Option<string>>)
    requires KeyedByMac(m) && |picks| == |devs| && forall d :: d in devs ==> ValidMac(d.mac)
    ensures KeyedByMac(Swept(m, devs, now, picks))
  {
    if devs != [] {
      var n := |devs| - 1;
      assert devs[n] in devs && forall d :: d in devs[..n] ==> d in devs;
      SweptStaysKeyedByMac(m, devs[..n], now, picks[..n]);
      AppliedTouchesOneKey(Swept(m, devs[..n], now, picks[..n]), devs[n], now, picks[n]);
    }
  }

  /** No two records carry the same device id. */
  ghost predicate IdsDistinct(m: Store) {
    forall j, k :: Has(m, j) && Has(m, k) && m[j].deviceId == m[k].deviceId ==> j == k
  }

  function IdsOf(m: Store): set<string> {
    set k | k in m :: m[k].deviceId
  }

  lemma MarkingKeepsIds(st: Store, seen: set<string>)
    requires KeyedByMac(st)
    ensures NormalForm(MissingMarked(st, seen))
    ensures IdsDistinct(MissingMarked(st, seen)) <==> IdsDistinct(st)
  {
    var marked := MissingMarked(st, seen);
    assert forall k :: Has(marked, k) <==> Has(st, k);
    assert forall k :: Has(st, k) ==> marked[k].deviceId == st[k].deviceId && marked[k].mac == st[k].mac;
  }
}
