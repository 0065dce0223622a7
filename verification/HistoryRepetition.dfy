/** When a sweep may be repeated without any effect. */
module HistoryRepetition {
  import opened Options
  import opened Sequences
  import opened HistoryRecords
  import opened HistoryCleanup
  import opened HistorySweep
  import opened HistoryTakeover
  import opened HistoryMacless
  import opened HistoryDeterminism

  /** Every entry has a MAC, and no two entries the same. */
  ghost predicate OwnMacs(devs: seq<Device>) {
    devs != [] ==>
      var n := |devs| - 1;
      devs[n].mac.Some? && TargetKey(devs[n]) !in SeenKeys(devs[..n]) && OwnMacs(devs[..n])
  }

  lemma {:induction false} AllHaveMacs(devs: seq<Device>, d: Device)
    requires OwnMacs(devs) && d in devs
    ensures d.mac.Some?
  {
    if d != devs[|devs| - 1] {
      AllHaveMacs(devs[..|devs| - 1], d);
    }
  }

  predicate ListsItsSource(d: Device) {
    d.source == "" || d.sources == [] || d.source in d.sources
  }

  predicate Listed(r: Record, d: Device) {
    d.source == "" || d.source in r.sources
  }

  /** The report of `d` has nothing to add to the record but, perhaps, the reporting source. */
  predicate Settled(r: Record, d: Device, now: Time) {
    && Refreshed(r, d, now).(sources := r.sources) == r && Elements(d.sources) <= Elements(r.sources)
    && (ListsItsSource(d) ==> Listed(r, d))
  }

  /** A settled record that lists the source does not change. */
  lemma SettledIsStill(r: Record, d: Device, now: Time)
    requires Settled(r, d, now) && Listed(r, d)
    ensures Refreshed(r, d, now) == r
  {
    NothingMissing(r.sources, d.sources);
  }

  lemma RefreshedLists(r: Record, d: Device, now: Time)
    ensures Elements(d.sources) <= Elements(Refreshed(r, d, now).sources) && Listed(Refreshed(r, d, now), d)
    ensures Elements(d.capabilities) <= Elements(Refreshed(r, d, now).capabilities)
  {
    var sources := WithMissing(r.sources, d.sources);
    WithMissingUnites(r.sources, d.sources);
    WithMissingUnites(r.capabilities, d.capabilities);
    AppendOne(sources, d.source);
    assert d.source == "" || d.source in WithSource(sources, d.source);
  }

  lemma WrittenIsSettled(r: Record, d: Device, now: Time)
    ensures Settled(Refreshed(r, d, now), d, now) && Settled(Created(d, now), d, now)
  {
    RefreshIsIdempotent(r, d, now);
    RefreshedLists(r, d, now);
    CreatedIsSettled(d, now);
  }

  lemma MergingStaysSettled(t: Record, g: Record, d: Device, now: Time)
    requires Settled(t, d, now) && !g.isActive && g.lastSeen <= now
    ensures Settled(Merged(t, g), d, now)
  {
    var merged := Merged(t, g);
    RefreshedLists(t, d, now);
    assert Refreshed(t, d, now).capabilities == t.capabilities;
    MergedSources(t, g);
    NothingMissing(merged.capabilities, d.capabilities);
    if Listed(t, d) {
      MergingStaysListed(t, g, d);
    }
    assert Refreshed(merged, d, now).details == merged.details;
    assert Refreshed(merged, d, now).category == merged.category;
  }

  lemma MergingStaysListed(t: Record, g: Record, d: Device)
    requires Listed(t, d)
    ensures Listed(Merged(t, g), d)
  {
    MergedSources(t, g);
    assert d.source in t.sources ==> d.source in Elements(t.sources) && d.source in Elements(Merged(t, g).sources);
  }

  ghost predicate SettledFor(st: Store, d: Device, now: Time) {
    Has(st, TargetKey(d)) && Settled(st[TargetKey(d)], d, now)
  }

  lemma {:induction false} SweptIsSettled(m: Store, devs: seq<Device>, now: Time, picks: seq<Option<string>>, i: nat)
    requires GoodSweep(devs) && GoodPicks(m, devs, now, picks) && OwnMacs(devs) && i < |devs|
    ensures SettledFor(Swept(m, devs, now, picks), devs[i], now)
    decreases |devs|
  {
    var n := |devs| - 1;
    if i == n {
      AppliedIsSettled(Swept(m, devs[..n], now, picks[..n]), devs[n], now, picks[n]);
    } else {
      GoodSweepPrefix(devs);
      SweptIsSettled(m, devs[..n], now, picks[..n], i);
      EarlierStaysSettled(m, devs, now, picks, i);
    }
  }

  lemma EarlierStaysSettled(m: Store, devs: seq<Device>, now: Time, picks: seq<Option<string>>, i: nat)
    requires GoodSweep(devs) && GoodPicks(m, devs, now, picks) && OwnMacs(devs) && i + 1 < |devs|
    requires var n := |devs| - 1; SettledFor(Swept(m, devs[..n], now, picks[..n]), devs[i], now)
    ensures SettledFor(Swept(m, devs, now, picks), devs[i], now)
  {
    var n := |devs| - 1;
    var st := Swept(m, devs[..n], now, picks[..n]);
    GoodSweepPrefix(devs);
    SweptIsAccounted(m, devs[..n], now, picks[..n]);
    assert devs[..n][i] in devs[..n] && TargetKey(devs[i]) in SeenKeys(devs[..n]);
    assert devs[i] in devs;
    AllHaveMacs(devs, devs[i]);
    ArrivedIsNotPicked(m, devs[..n], st, devs[i], devs[n], picks[n]);
    SettledPasses(st, devs[n], now, picks[n], devs[i]);
  }

  lemma AppliedIsSettled(st: Store, e: Device, now: Time, pick: Option<string>)
    ensures SettledFor(Applied(st, e, now, pick), e, now)
  {
    WrittenIsSettled(if pick.Some? && pick.value in st then st[pick.value] else Created(e, now), e, now);
  }

  lemma SettledPasses(st: Store, e: Device, now: Time, pick: Option<string>, d: Device)
    requires SettledFor(st, d, now) && TargetKey(e) != TargetKey(d) && pick != Some(TargetKey(d))
    ensures SettledFor(Applied(st, e, now, pick), d, now)
  {
  }

  lemma AppliedStaysCanonical(st: Store, e: Device, now: Time, pick: Option<string>)
    requires Canonical(st) && ValidMac(e.mac)
    ensures Canonical(Applied(st, e, now, pick))
  {
    AppliedTouchesOneKey(st, e, now, pick);
  }

  lemma {:induction false} SweptStaysCanonical(m: Store, devs: seq<Device>, now: Time, picks: seq<Option<string>>)
    requires Canonical(m) && |picks| == |devs| && forall i :: 0 <= i < |devs| ==> ValidMac(devs[i].mac)
    ensures Canonical(Swept(m, devs, now, picks))
    decreases |devs|
  {
    if devs != [] {
      var n := |devs| - 1;
      SweptStaysCanonical(m, devs[..n], now, picks[..n]);
      AppliedStaysCanonical(Swept(m, devs[..n], now, picks[..n]), devs[n], now, picks[n]);
    }
  }

  /** Every ghost is inactive and was last seen by now. */
  ghost predicate QuietGhosts(m: Store, now: Time) {
    forall g :: Has(m, g) && m[g].mac.None? ==> !m[g].isActive && m[g].lastSeen <= now
  }

  lemma GhostsAreQuiet(m: Store, devs: seq<Device>, now: Time, picks: seq<Option<string>>)
    requires AllTimely(m, now) && GoodPicks(m, devs, now, picks) && OwnMacs(devs)
    ensures QuietGhosts(Marked(m, devs, now, picks), now)
  {
    var st, marked := Swept(m, devs, now, picks), Marked(m, devs, now, picks);
    SweptIsTimely(m, devs, now, picks);
    SweptIsAccounted(m, devs, now, picks);
    forall g | Has(marked, g) && marked[g].mac.None? ensures !marked[g].isActive && marked[g].lastSeen <= now {
      assert Has(st, g);
      LastForIsLast(devs, g);
      if LastFor(devs, g).Some? {
        AllHaveMacs(devs, LastFor(devs, g).value);
      }
    }
  }

  lemma AbsorbingStaysSettled(
    m: Store, ghosts: seq<string>, hosts: map<string, string>, d: Device, now: Time)
    requires IsHostTable(hosts, m) && IsGhostList(ghosts, m, hosts) && QuietGhosts(m, now)
    requires SettledFor(m, d, now) && m[TargetKey(d)].mac.Some?
    ensures SettledFor(AllAbsorbed(m, ghosts, hosts), d, now)
  {
    forall t: Record, g: Record | Settled(t, d, now) && !g.isActive && g.lastSeen <= now
      ensures Settled(Merged(t, g), d, now)
    {
      MergingStaysSettled(t, g, d, now);
    }
    forall g | g in Ghosts(m, hosts) ensures !m[g].isActive && m[g].lastSeen <= now {
      assert Has(m, g);
    }
    AbsorbingAdvances(m, ghosts, hosts, TargetKey(d), (g: Record) => !g.isActive && g.lastSeen <= now,
      (r: Record, t: Record) => Settled(t, d, now));
  }

  lemma AbsorbingStaysInactive(m: Store, ghosts: seq<string>, hosts: map<string, string>, now: Time, k: string)
    requires IsHostTable(hosts, m) && IsGhostList(ghosts, m, hosts) && QuietGhosts(m, now)
    requires Has(m, k) && !m[k].isActive && k in AllAbsorbed(m, ghosts, hosts)
    ensures !AllAbsorbed(m, ghosts, hosts)[k].isActive
  {
    AbsorbedKeys(m, ghosts, hosts, k);
    forall g | g in Ghosts(m, hosts) ensures !m[g].isActive {
      assert Has(m, g);
    }
    AbsorbingInactive(m, ghosts, hosts, k);
  }

  /** What a sweep of devices with MACs of their own leaves: nothing to add for any of them, and all others inactive. */
  lemma SweepSettles(m: Store, devs: seq<Device>, now: Time, after: Store)
    requires Canonical(m) && AllTimely(m, now) && GoodSweep(devs) && OwnMacs(devs)
    requires Reconciled(m, devs, now, after)
    ensures forall d :: d in devs ==> SettledFor(after, d, now)
    ensures forall k :: Has(after, k) && k !in SeenKeys(devs) ==> !after[k].isActive
  {
    var picks :| ReconciledVia(m, devs, now, picks, after);
    var marked := Marked(m, devs, now, picks);
    var order, hosts, ghosts :| CleanedUpVia(marked, order, hosts, ghosts, after);
    MarkedIsCanonical(m, devs, now, picks);
    RekeyingCanonical(marked, order);
    DrainedAll(marked, order);
    GhostsAreQuiet(m, devs, now, picks);
    forall d | d in devs ensures SettledFor(after, d, now) {
      MarkedIsSettled(m, devs, now, picks, d);
      AbsorbingStaysSettled(marked, ghosts, hosts, d, now);
    }
    forall k | Has(after, k) && k !in SeenKeys(devs) ensures !after[k].isActive {
      AbsorbedKeys(marked, ghosts, hosts, k);
      AbsorbingStaysInactive(marked, ghosts, hosts, now, k);
    }
  }

  lemma MarkedIsCanonical(m: Store, devs: seq<Device>, now: Time, picks: seq<Option<string>>)
    requires Canonical(m) && GoodSweep(devs) && GoodPicks(m, devs, now, picks) && OwnMacs(devs)
    ensures Canonical(Marked(m, devs, now, picks))
  {
    forall i | 0 <= i < |devs| ensures ValidMac(devs[i].mac) {
      assert devs[i] in devs && GoodDevice(devs[i]);
      AllHaveMacs(devs, devs[i]);
    }
    SweptStaysCanonical(m, devs, now, picks);
    assert forall k :: Has(Marked(m, devs, now, picks), k) ==> Has(Swept(m, devs, now, picks), k);
  }

  lemma MarkedIsSettled(m: Store, devs: seq<Device>, now: Time, picks: seq<Option<string>>, d: Device)
    requires GoodSweep(devs) && GoodPicks(m, devs, now, picks) && OwnMacs(devs) && d in devs
    ensures SettledFor(Marked(m, devs, now, picks), d, now) && Marked(m, devs, now, picks)[TargetKey(d)].mac.Some?
  {
    var i :| 0 <= i < |devs| && devs[i] == d;
    SweptIsSettled(m, devs, now, picks, i);
    AllHaveMacs(devs, d);
    assert TargetKey(d) in SeenKeys(devs);
    assert Refreshed(Swept(m, devs, now, picks)[TargetKey(d)], d, now).mac == d.mac;
  }

  ghost predicate ListedFor(st: Store, d: Device) {
    Has(st, TargetKey(d)) && Listed(st[TargetKey(d)], d)
  }

  lemma {:induction false} SettledSweepChangesNothing(
    m: Store, devs: seq<Device>, now: Time, picks: seq<Option<string>>)
    requires GoodPicks(m, devs, now, picks) && forall d :: d in devs ==> SettledFor(m, d, now) && ListedFor(m, d)
    ensures Swept(m, devs, now, picks) == m
    decreases |devs|
  {
    if devs != [] {
      var n := |devs| - 1;
      assert devs[n] in devs && forall d :: d in devs[..n] ==> d in devs;
      SettledSweepChangesNothing(m, devs[..n], now, picks[..n]);
      SettledIsStill(m[TargetKey(devs[n])], devs[n], now);
      assert picks[n] == Some(TargetKey(devs[n]));
    }
  }

  /** A sweep with nothing to add to a store in normal form, whose other records are inactive, changes nothing. */
  lemma SettledIsFixed(m: Store, devs: seq<Device>, now: Time, after: Store)
    requires NormalForm(m) && Reconciled(m, devs, now, after)
    requires forall d :: d in devs ==> SettledFor(m, d, now) && ListedFor(m, d)
    requires forall k :: Has(m, k) && k !in SeenKeys(devs) ==> !m[k].isActive
    ensures after == m
  {
    var picks :| ReconciledVia(m, devs, now, picks, after);
    SettledSweepChangesNothing(m, devs, now, picks);
    NothingToMark(m, SeenKeys(devs));
    CleanupIsIdempotent(m, after);
  }

  lemma NothingToMark(m: Store, seen: set<string>)
    requires forall k :: Has(m, k) && k !in seen ==> !m[k].isActive
    ensures MissingMarked(m, seen) == m
  {
    assert forall k :: k in m && k !in seen ==> Has(m, k) && m[k].(isActive := false) == m[k];
  }

  // ---- What a repeated report adds

  /** A sweep of devices that all have their records refreshes each in its place, so that its source is listed. */
  lemma {:induction false} KnownAreListed(m: Store, devs: seq<Device>, now: Time, picks: seq<Option<string>>, i: nat)
    requires GoodSweep(devs) && GoodPicks(m, devs, now, picks) && OwnMacs(devs) && i < |devs|
    requires forall l :: 0 <= l < |devs| ==> Has(m, TargetKey(devs[l]))
    ensures m.Keys <= Swept(m, devs, now, picks).Keys && ListedFor(Swept(m, devs, now, picks), devs[i])
    decreases |devs|
  {
    var n := |devs| - 1;
    GoodSweepPrefix(devs);
    var st, c := Swept(m, devs[..n], now, picks[..n]), TargetKey(devs[n]);
    if n > 0 {
      KnownAreListed(m, devs[..n], now, picks[..n], if i == n then 0 else i);
    } else {
      assert st == m;
    }
    assert Has(m, c) && c in st && picks[n] == Some(c);
    if i == n {
      RefreshedLists(st[c], devs[n], now);
    } else {
      assert devs[..n][i] in devs[..n] && TargetKey(devs[i]) in SeenKeys(devs[..n]);
    }
  }

  lemma AbsorbingStaysListed(m: Store, ghosts: seq<string>, hosts: map<string, string>, d: Device)
    requires IsHostTable(hosts, m) && IsGhostList(ghosts, m, hosts) && ListedFor(m, d) && m[TargetKey(d)].mac.Some?
    ensures ListedFor(AllAbsorbed(m, ghosts, hosts), d)
  {
    forall t: Record, g: Record | Listed(t, d) ensures Listed(Merged(t, g), d) {
      MergingStaysListed(t, g, d);
    }
    AbsorbingAdvances(m, ghosts, hosts, TargetKey(d), (g: Record) => true, (r: Record, t: Record) => Listed(t, d));
  }

  /** Once a device has its record, another sweep that finds it lists the reporting source. */
  lemma SweepLists(m: Store, devs: seq<Device>, now: Time, after: Store, i: nat)
    requires Canonical(m) && GoodSweep(devs) && OwnMacs(devs) && Reconciled(m, devs, now, after) && i < |devs|
    requires forall l :: 0 <= l < |devs| ==> Has(m, TargetKey(devs[l]))
    ensures ListedFor(after, devs[i])
  {
    var picks :| ReconciledVia(m, devs, now, picks, after);
    var marked := Marked(m, devs, now, picks);
    var order, hosts, ghosts :| CleanedUpVia(marked, order, hosts, ghosts, after);
    MarkedIsListed(m, devs, now, picks, i);
    RekeyingCanonical(marked, order);
    DrainedAll(marked, order);
    AbsorbingStaysListed(marked, ghosts, hosts, devs[i]);
  }

  lemma MarkedIsListed(m: Store, devs: seq<Device>, now: Time, picks: seq<Option<string>>, i: nat)
    requires Canonical(m) && GoodSweep(devs) && OwnMacs(devs) && GoodPicks(m, devs, now, picks) && i < |devs|
    requires forall l :: 0 <= l < |devs| ==> Has(m, TargetKey(devs[l]))
    ensures var marked := Marked(m, devs, now, picks);
      Canonical(marked) && ListedFor(marked, devs[i]) && marked[TargetKey(devs[i])].mac.Some?
  {
    MarkedIsCanonical(m, devs, now, picks);
    KnownAreListed(m, devs, now, picks, i);
    MarkedIsSettled(m, devs, now, picks, devs[i]);
  }

  /**
   A sweep of devices each with a MAC of its own, repeated at the same moment, changes nothing if and only if the record
   of every device lists the reporting source: whatever the orders and finds of both sweeps.
   */
  lemma RepeatingChangesNothingExactly(m: Store, devs: seq<Device>, now: Time, once: Store, twice: Store)
    requires Canonical(m) && AllTimely(m, now) && GoodSweep(devs) && OwnMacs(devs)
    requires Reconciled(m, devs, now, once) && Reconciled(once, devs, now, twice)
    ensures twice == once <==> forall d :: d in devs ==> ListedFor(once, d)
  {
    SweepSettles(m, devs, now, once);
    ReconciledIsNormal(m, devs, now, once);
    if forall d :: d in devs ==> ListedFor(once, d) {
      SettledIsFixed(once, devs, now, twice);
    } else {
      var d :| d in devs && !ListedFor(once, d);
      var i :| 0 <= i < |devs| && devs[i] == d;
      forall l | 0 <= l < |devs| ensures Has(once, TargetKey(devs[l])) {
        assert devs[l] in devs && SettledFor(once, devs[l], now);
      }
      SweepLists(once, devs, now, twice, i);
    }
  }

  /** In particular if every report lists its own source among the device's, as what aggregation delivers does. */
  lemma RepeatingChangesNothing(m: Store, devs: seq<Device>, now: Time, once: Store, twice: Store)
    requires Canonical(m) && AllTimely(m, now) && GoodSweep(devs) && OwnMacs(devs)
    requires forall d :: d in devs ==> ListsItsSource(d)
    requires Reconciled(m, devs, now, once) && Reconciled(once, devs, now, twice)
    ensures twice == once
  {
    SweepSettles(m, devs, now, once);
    RepeatingChangesNothingExactly(m, devs, now, once, twice);
  }

  /** A device reported by "b" with the source "c" only: created with "c", and "b" is added when the sweep is repeated. */
  lemma RepeatingMayAdd(mac: string, ip: string) returns (once: Store, twice: Store)
    requires PlainText(mac) && mac != ""
    ensures var devs := [PlainDevice(mac, ip).(source := "b", sources := ["c"])];
      Reconciled(map[], devs, 3, once) && Reconciled(once, devs, 3, twice) && twice != once
  {
    PlainMac(mac);
    once, twice := UnlistedIsAdded(PlainDevice(mac, ip).(source := "b", sources := ["c"]));
  }

  /** A device whose record does not list the reporting source from the start. */
  lemma UnlistedIsAdded(d: Device) returns (once: Store, twice: Store)
    requires GoodDevice(d) && d.mac.Some? && !Listed(Created(d, 3), d)
    ensures Reconciled(map[], [d], 3, once) && Reconciled(once, [d], 3, twice) && twice != once
  {
    OneIsGood(d);
    once := FirstOutcome(d);
    twice := ReconcileExists(once, [d], 3);
    RepeatingChangesNothingExactly(map[], [d], 3, once, twice);
    assert d in [d];
  }

  lemma OneIsGood(d: Device)
    requires GoodDevice(d) && d.mac.Some?
    ensures GoodSweep([d]) && OwnMacs([d])
  {
    assert [d][..0] == [];
  }

  /** The first report of a device makes its record. */
  lemma FirstOutcome(d: Device) returns (once: Store)
    requires GoodDevice(d) && d.mac.Some?
    ensures Reconciled(map[], [d], 3, once) && once == map[TargetKey(d) := Created(d, 3)]
  {
    var m: Store := map[];
    once := map[TargetKey(d) := Created(d, 3)];
    assert Matches(m, d, None);
    var marked := MissingMarked(Applied(m, d, 3, None), {TargetKey(d)});
    assert marked == once;
    assert NormalForm(once);
    var after := CleanupExists(once);
    CleanupIsIdempotent(once, after);
    OneEntry(m, d, 3, None, once);
  }
}
