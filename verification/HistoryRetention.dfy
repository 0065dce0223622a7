/** What a record that replaces another must still know, and what one step of a sweep keeps of a MAC and its record. */
module HistoryRetention {
  import opened Options
  import opened Text
  import opened HistoryRecords
  import opened HistoryCleanup
  import opened HistorySweep
  import opened Sequences

  // ---- Status

  datatype Status = Active | Inactive | Archive

  /** The status reported for a record. */
  function StatusOf(r: Record): Status {
    if r.isActive then Active else if r.wasEverActive then Inactive else Archive
  }

  // ---- Retention between two records of one device

  ghost predicate DetailsKept(d: Details, d': Details) {
    && (d.hostname.Some? ==> d'.hostname.Some?)
    && (d.vendor.Some? ==> d'.vendor.Some?)
    && (d.vendorId.Some? ==> d'.vendorId.Some?)
    && (d.productId.Some? ==> d'.productId.Some?)
    && (d.webUrl.Some? ==> d'.webUrl.Some?)
    && (d.matterFabrics.Some? ==> d'.matterFabrics.Some?)
  }

  /** `r'` knows at least what `r` knew. */
  ghost predicate Retains(r: Record, r': Record) {
    && Elements(r.sources) <= Elements(r'.sources)
    && Elements(r.capabilities) <= Elements(r'.capabilities)
    && (r.firstSeen != 0 ==> 0 < r'.firstSeen <= r.firstSeen)
    && r.lastSeen <= r'.lastSeen
    && (r.isActive || r.wasEverActive ==> r'.isActive || r'.wasEverActive)
    && (!GenericName(r.displayName) ==> !GenericName(r'.displayName))
    && (r.category.kind != GENERIC_KIND ==> r'.category.kind != GENERIC_KIND)
    && DetailsKept(r.details, r'.details)
  }

  lemma RetainsIsTransitive(a: Record, b: Record, c: Record)
    requires Retains(a, b) && Retains(b, c)
    ensures Retains(a, c)
  {
  }

  /** A merge retains what either record knew. */
  lemma MergeRetainsBoth(t: Record, o: Record)
    ensures Retains(t, Merged(t, o)) && Retains(o, Merged(t, o))
  {
    MergedSources(t, o);
  }

  lemma RefreshRetains(r: Record, d: Device, now: Time)
    requires Timely(r, now)
    ensures Retains(r, Refreshed(r, d, now))
  {
    WithMissingUnites(r.sources, d.sources);
    WithMissingUnites(r.capabilities, d.capabilities);
    AppendOne(WithMissing(r.sources, d.sources), d.source);
  }

  // ---- Who holds a MAC

  ghost predicate HoldsMac(m: Store, k: string, a: string) {
    Has(m, k) && ValidMac(m[k].mac) && Norm(m[k].mac.value) == a
  }

  ghost predicate MacHeld(m: Store, a: string) {
    exists k :: HoldsMac(m, k, a)
  }

  ghost predicate KeptAs(r: Record, st: Store, a: string) {
    exists j :: HoldsMac(st, j, a) && Retains(r, st[j])
  }

  /**
   Entry `i` of the sweep can take over record `k`: its MAC is unknown and new in this sweep, record `k`
   has another MAC, sits on the entry's IP, and was not found earlier in the sweep.
   (A device whose MAC is known takes nothing over while it has its own record; chains are in HistoryChains.)
   */
  ghost predicate CanTakeOver(m: Store, devs: seq<Device>, i: nat, k: string) {
    && i < |devs| && devs[i].mac.Some? && devs[i].ip != ""
    && var key := Norm(devs[i].mac.value);
    && Has(m, k) && ValidMac(m[k].mac) && m[k].ip == devs[i].ip && Norm(m[k].mac.value) != key
    && !MacHeld(m, key)
    && SeenKeys(devs[..i]) !! {k, Norm(m[k].mac.value), key}
  }

  /** Nothing is taken over, whatever records the source picks. */
  ghost predicate NoTakeover(m: Store, devs: seq<Device>) {
    forall i, k :: !CanTakeOver(m, devs, i, k)
  }

  // ---- One step

  /** A holder is picked only by a device without MAC or with its own MAC, unless its IP is taken over. */
  lemma PickedHolder(st: Store, d: Device, pick: Option<string>, j: string, a: string)
    requires Tidy(st) && GoodDevice(d) && Matches(st, d, pick) && HoldsMac(st, j, a) && pick == Some(j)
    ensures d.mac.None? || Norm(d.mac.value) == a
      || (st[j].ip == d.ip != "" && !MacHeld(st, Norm(d.mac.value)))
  {
    if d.mac.Some? && Norm(d.mac.value) != a {
      var key := TargetKey(d);
      assert key in st ==> key == j && MacKey(key) && Has(st, key);
      assert key !in st && !MacKnown(st, d);
      assert forall h :: HoldsMac(st, h, key) ==> SameMac(st[h], d);
    }
  }

  /** If its holder is not taken over, a MAC stays held through a step and its record retains everything. */
  lemma StepKeeps(st: Store, d: Device, now: Time, pick: Option<string>, j: string, a: string)
    requires AllTimely(st, now) && Matches(st, d, pick) && GoodDevice(d) && HoldsMac(st, j, a)
    requires pick == Some(j) ==> d.mac.None? || Norm(d.mac.value) == a
    requires j == TargetKey(d) ==> pick == Some(j)
    ensures KeptAs(st[j], Applied(st, d, now, pick), a)
  {
    var st' := Applied(st, d, now, pick);
    if pick == Some(j) {
      RefreshRetains(st[j], d, now);
      assert HoldsMac(st', TargetKey(d), a);
    } else {
      assert HoldsMac(st', j, a) && st'[j] == st[j];
    }
  }

  /** A MAC found in the sweep is held under its own key, and nowhere else. */
  lemma SeenMacsAreHeld(devs: seq<Device>, st: Store, a: string)
    requires GoodSweep(devs) && Tidy(st) && MacKey(a)
    requires forall d :: d in devs && d.mac.Some? ==> Has(st, TargetKey(d))
    ensures a in SeenKeys(devs) ==> HoldsMac(st, a, a) && forall j :: HoldsMac(st, j, a) ==> j == a
  {
    if a in SeenKeys(devs) {
      var d :| d in devs && TargetKey(d) == a;
      assert GoodDevice(d);
      assert forall j :: HoldsMac(st, j, a) ==> SharedMac(st[j], st[a]);
    }
  }

  lemma FinishKeeps(st: Store, seen: set<string>, now: Time, after: Store, j: string, a: string)
    requires Tidy(st) && AllTimely(st, now) && CleanedUp(MissingMarked(st, seen), after) && HoldsMac(st, j, a)
    ensures HoldsMac(after, a, a) && Retains(st[j], after[a])
  {
    var marked := MissingMarked(st, seen);
    MarkingStaysTidy(st, seen);
    OneHolder(marked, j, a);
    var r := marked[j];
    forall t: Record, g: Record | Retains(r, t) && g.mac.None? ensures Retains(r, Merged(t, g)) {
      MergeRetainsBoth(t, g);
      RetainsIsTransitive(r, t, Merged(t, g));
    }
    CleanupAdvances(marked, after, j, (x, y) => Retains(x, y));
    assert Retains(st[j], marked[j]);
    RetainsIsTransitive(st[j], marked[j], after[a]);
  }

  lemma OneHolder(m: Store, j: string, a: string)
    requires Tidy(m) && HoldsMac(m, j, a)
    ensures forall i :: Has(m, i) && KeyOf(m[i]) == a ==> i == j
  {
    forall i | Has(m, i) && KeyOf(m[i]) == a ensures i == j {
      assert ToldApart(m[i].mac, m[i].deviceId) && ToldApart(m[j].mac, m[j].deviceId);
      assert SharedMac(m[i], m[j]);
    }
  }

  lemma KeptFurther(r: Record, t: Record, st: Store, a: string)
    requires Retains(r, t) && KeptAs(t, st, a)
    ensures KeptAs(r, st, a)
  {
    var j :| HoldsMac(st, j, a) && Retains(t, st[j]);
    RetainsIsTransitive(r, t, st[j]);
  }
}
