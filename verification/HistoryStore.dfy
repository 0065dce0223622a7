/** The history store itself: a keyed map of records that is rewritten in place. */
module HistoryStore {
  import opened Options
  import opened Text
  import opened HistoryRecords
  import opened HistoryCleanup
  import opened HistorySweep
  import opened HistoryRetention
  import opened HistoryRuns
  import opened Sequences

  /** What is reported to the supervisor about a record; the other metadata are copies of its fields. */
  datatype Line = Line(deviceId: string, displayName: string, kind: string, status: Status, firstSeen: Time, lastSeen: Time)

  function LineOf(r: Record): Line {
    Line(r.deviceId, r.displayName, r.category.kind, StatusOf(r), r.firstSeen, r.lastSeen)
  }

  /** Id, name, kind and times are the record's; it is active, or was once, or is kept in the archive only. */
  predicate IsLineOf(line: Line, r: Record) {
    && line.deviceId == r.deviceId && line.displayName == r.displayName && line.kind == r.category.kind
    && line.firstSeen == r.firstSeen && line.lastSeen == r.lastSeen
    && (line.status == Active <==> r.isActive)
    && (line.status == Inactive <==> !r.isActive && r.wasEverActive)
    && (line.status == Archive <==> !r.isActive && !r.wasEverActive)
  }

  /** One line for each record, in some order of the map. */
  ghost predicate IsReport(report: seq<Line>, order: seq<string>, m: Store) {
    && IsOrder(order, m) && |report| == |order|
    && forall i :: 0 <= i < |order| ==> Has(m, order[i]) && IsLineOf(report[i], m[order[i]])
  }

  method RefreshRecord(existing: Record, dev: Device, now: Time) returns (r: Record)
    ensures r == Refreshed(existing, dev, now)
  {
    var active := dev.isActive.GetOr(true);
    var lastSeen, isActive, wasEverActive := existing.lastSeen, existing.isActive, existing.wasEverActive;
    if active {
      lastSeen, isActive, wasEverActive := now, true, true;
    } else if !isActive {
      // stays inactive and keeps its earlier lastSeen
    } else {
      isActive := false;
    }
    var sources := PushMissing(existing.sources, dev.sources);
    if dev.source !in sources && dev.source != "" {
      sources := sources + [dev.source];
    }
    assert sources == WithSource(WithMissing(existing.sources, dev.sources), dev.source);
    var mac := existing.mac;
    if dev.mac.Some? {
      mac := dev.mac;
    }
    assert mac == Either(dev.mac, existing.mac);
    var displayName, category := existing.displayName, existing.category;
    if !GenericName(dev.displayName) || GenericName(displayName) {
      displayName := dev.displayName;
    }
    if dev.category.kind != GENERIC_KIND || category.kind == GENERIC_KIND {
      category := dev.category;
    }
    var capabilities := PushMissing(existing.capabilities, dev.capabilities);
    r := Record(existing.deviceId, displayName, category, dev.ip, mac, dev.interface,
      RefreshedDetails(existing.details, dev.details), capabilities, dev.source, sources,
      existing.firstSeen, lastSeen, isActive, wasEverActive);
  }

  const TR064 := "fritzbox-tr064"

  /** Known to the router only: such a record was never active in this network. */
  predicate PureTr064(r: Record) {
    && r.source == TR064
    && (forall s :: s in r.sources ==> s == TR064)
    && (forall c :: c in r.capabilities ==> c == TR064 || c == "ethernet" || c == "l2" || c == "ip")
  }

  /** A record read from a file of an older version, with its sources and activity completed. */
  function Repaired(r: Record): Record {
    var r' := if r.sources == [] && r.source != "" then r.(sources := [r.source]) else r;
    if r'.isActive || (!r'.wasEverActive && !PureTr064(r')) then r'.(wasEverActive := true) else r'
  }

  /**
   A repaired record lists its source if it listed none, and counts as once active unless it never was and only the
   router told of it; nothing else changes, and a second repair changes nothing.
   */
  lemma RepairIsTold(r: Record)
    ensures var r' := Repaired(r);
      && r' == r.(sources := r'.sources, wasEverActive := r'.wasEverActive) && Repaired(r') == r'
      && r'.sources == (if r.sources == [] && r.source != "" then [r.source] else r.sources)
      && (!r'.wasEverActive <==>
            && !r.isActive && !r.wasEverActive && r.source == "fritzbox-tr064"
            && (forall s :: s in r.sources ==> s == "fritzbox-tr064")
            && (forall c :: c in r.capabilities ==> c in ["fritzbox-tr064", "ethernet", "l2", "ip"]))
  {
  }

  function RepairedAll(m: Store): Store {
    map k | k in m :: Repaired(m[k])
  }

  /**
   Whatever the file held, a loaded store is in normal form, its active records count as ever active, and
   it has all the evidence of the repaired records.
   */
  lemma LoadedIsReady(loaded: Store, after: Store)
    requires CleanedUp(RepairedAll(loaded), after)
    ensures NormalForm(after)
    ensures forall k :: Has(after, k) ==> (after[k].isActive ==> after[k].wasEverActive)
    ensures StoreEvidence(after) == StoreEvidence(RepairedAll(loaded))
  {
    var repaired := RepairedAll(loaded);
    assert forall k :: Has(repaired, k) ==> Has(loaded, k);
    CleanupNormalises(repaired, after);
    CleanupConservesEvidence(repaired, after);
    CleanupPreserves(repaired, after, (r: Record) => r.isActive ==> r.wasEverActive);
  }

  class DeviceHistoryStore {
    var records: Store

    constructor ()
      ensures records == map[]
    {
      records := map[];
    }

    /** `load_from_path` after parsing: every record is repaired, then the store is cleaned up. */
    method Load(loaded: Store)
      modifies this
      ensures CleanedUp(RepairedAll(loaded), records)
    {
      records := loaded;
      var pending := records.Keys;
      while pending != {}
        invariant pending <= loaded.Keys && records.Keys == loaded.Keys
        invariant forall k :: k in loaded ==> records[k] == if k in pending then loaded[k] else Repaired(loaded[k])
      {
        var k :| k in pending;
        var record := records[k];
        if record.sources == [] && record.source != "" {
          record := record.(sources := [record.source]);
        }
        if record.isActive || (!record.wasEverActive && !PureTr064(record)) {
          record := record.(wasEverActive := true);
        }
        records := records[k := record];
        pending := pending - {k};
      }
      assert records == RepairedAll(loaded);
      CleanupDuplicates();
    }

    /** `forget_device`: drops every record that answers to the id or MAC, in any spelling. */
    method ForgetDevice(deviceIdOrMac: string) returns (removed: bool)
      modifies this
      ensures records == Forgotten(old(records), Norm(deviceIdOrMac))
      ensures removed <==> records != old(records)
    {
      var needle := Norm(deviceIdOrMac);
      var initial := |records|;
      ghost var before := records;
      records := map k | k in records && !Answers(k, records[k], needle) :: records[k];
      assert records.Keys <= before.Keys;
      removed := |records| < initial;
      KeepsAllOrShrinks(before, records);
    }

    /** Drains the map into one keyed by proper keys, in whatever order the map yields its records. */
    method Rekey() returns (ghost order: seq<string>)
      modifies this
      ensures IsOrder(order, old(records)) && records == Rekeyed(old(records), order)
    {
      var pending, rekeyed: Store := records.Keys, map[];
      order := [];
      while pending != {}
        invariant records == old(records) && NoDuplicates(order)
        invariant pending == records.Keys - Elements(order) && Elements(order) <= records.Keys
        invariant rekeyed == Rekeyed(records, order)
      {
        var k :| k in pending;
        RekeyedNext(records, order, k);
        OrderNext(order, k);
        rekeyed := Place(rekeyed, records[k]);
        pending := pending - {k};
        order := order + [k];
      }
      NothingPending(records.Keys, Elements(order));
      records := rekeyed;
    }

    /** Finds ghosts and their hosts, and lets the hosts absorb them. */
    method AbsorbGhosts() returns (ghost hosts: map<string, string>, ghost ghosts: seq<string>)
      modifies this
      ensures IsHostTable(hosts, old(records)) && IsGhostList(ghosts, old(records), hosts)
      ensures records == AllAbsorbed(old(records), ghosts, hosts)
    {
      var ipsWithMac := HostTable(records);
      var toRemove := Ghosts(records, ipsWithMac);
      hosts, ghosts := ipsWithMac, [];
      ghost var before := records;
      while toRemove != {}
        invariant NoDuplicates(ghosts) && toRemove == Ghosts(before, hosts) - Elements(ghosts)
        invariant Elements(ghosts) <= Ghosts(before, hosts)
        invariant records == AllAbsorbed(before, ghosts, hosts)
      {
        var g :| g in toRemove;
        AbsorbedNext(before, ghosts, hosts, g);
        OrderNext(ghosts, g);
        GhostWaits(before, ghosts, hosts, g);
        AbsorbOne(g, ipsWithMac[records[g].ip]);
        toRemove := toRemove - {g};
        ghosts := ghosts + [g];
      }
      NothingPending(Ghosts(before, hosts), Elements(ghosts));
    }

    method AbsorbOne(unkeyed: string, macKey: string)
      modifies this
      ensures records == Absorbed(old(records), unkeyed, macKey)
    {
      if unkeyed in records {
        var ghostRecord := records[unkeyed];
        records := records - {unkeyed};
        if macKey in records {
          var merged := MergeRecords(records[macKey], ghostRecord);
          records := records[macKey := merged];
        }
      }
    }

    /** `cleanup_duplicates`. */
    method CleanupDuplicates()
      modifies this
      ensures CleanedUp(old(records), records)
    {
      ghost var before := records;
      ghost var order := Rekey();
      ghost var hosts, ghosts := AbsorbGhosts();
      assert CleanedUpVia(before, order, hosts, ghosts, records);
    }

    /** Finds a record for a swept device: by key, else by MAC, else by IP; any that fits may be found. */
    method FindMatch(dev: Device) returns (pick: Option<string>)
      ensures Matches(records, dev, pick)
    {
      var targetKey := TargetKey(dev);
      if targetKey in records {
        return Some(targetKey);
      }
      if k :| k in records && SameMac(records[k], dev) {
        assert Has(records, k);
        return Some(k);
      }
      assert !MacKnown(records, dev);
      if dev.ip != "" {
        if k :| k in records && records[k].ip == dev.ip {
          assert Has(records, k);
          return Some(k);
        }
      }
      assert !IpKnown(records, dev);
      return None;
    }

    /** Files one swept device. */
    method FileDevice(dev: Device, now: Time) returns (ghost pick: Option<string>)
      modifies this
      ensures Matches(old(records), dev, pick) && records == Applied(old(records), dev, now, pick)
    {
      var targetKey := RecordKey(dev.mac, dev.deviceId);
      var matched := FindMatch(dev);
      pick := matched;
      if matched.Some? {
        assert Has(records, matched.value);
        var existing := records[matched.value];
        records := records - {matched.value};
        existing := RefreshRecord(existing, dev, now);
        records := records[targetKey := existing];
      } else {
        records := records[targetKey := Created(dev, now)];
      }
    }

    /** Marks what the sweep did not see as inactive. */
    method MarkMissing(seen: set<string>)
      modifies this
      ensures records == MissingMarked(old(records), seen)
    {
      var pending := records.Keys;
      ghost var before := records;
      while pending != {}
        invariant pending <= before.Keys && records.Keys == before.Keys
        invariant forall k :: k in before ==>
          records[k] == if k in pending then before[k] else MissingMarked(before, seen)[k]
      {
        var k :| k in pending;
        if k !in seen {
          records := records[k := records[k].(isActive := false)];
        }
        pending := pending - {k};
      }
    }

    /** `reconcile_sweep`: one sweep against the history, and the report that follows. */
    method ReconcileSweep(sweep: seq<Device>, now: Time) returns (report: seq<Line>, ghost order: seq<string>)
      modifies this
      ensures Reconciled(old(records), sweep, now, records)
      ensures IsReport(report, order, records)
    {
      ghost var before := records;
      ghost var picks;
      var seenKeys;
      seenKeys, picks := FileAll(sweep, now);
      MarkMissing(seenKeys);
      CleanupDuplicates();
      assert ReconciledVia(before, sweep, now, picks, records);
      report, order := Report();
    }

    /** The first loop of a sweep: files every device and collects the keys it was filed under. */
    method FileAll(sweep: seq<Device>, now: Time) returns (seenKeys: set<string>, ghost picks: seq<Option<string>>)
      modifies this
      ensures GoodPicks(old(records), sweep, now, picks) && records == Swept(old(records), sweep, now, picks)
      ensures seenKeys == SeenKeys(sweep)
    {
      seenKeys, picks := {}, [];
      assert sweep[..0] == [];
      for i := 0 to |sweep|
        invariant GoodPicks(old(records), sweep[..i], now, picks)
        invariant records == Swept(old(records), sweep[..i], now, picks)
        invariant seenKeys == SeenKeys(sweep[..i])
      {
        seenKeys := seenKeys + {TargetKey(sweep[i])};
        ghost var pick := FileDevice(sweep[i], now);
        FiledNext(old(records), sweep[..i], now, picks, sweep[i], pick);
        assert sweep[..i + 1] == sweep[..i] + [sweep[i]];
        picks := picks + [pick];
      }
      assert sweep[..|sweep|] == sweep;
    }

    /** One line for each record. */
    method Report() returns (report: seq<Line>, ghost order: seq<string>)
      ensures IsReport(report, order, records)
    {
      var pending := records.Keys;
      report, order := [], [];
      while pending != {}
        invariant NoDuplicates(order) && pending == records.Keys - Elements(order) && Elements(order) <= records.Keys
        invariant |report| == |order|
        invariant forall i :: 0 <= i < |order| ==> Has(records, order[i]) && IsLineOf(report[i], records[order[i]])
      {
        var k :| k in pending;
        OrderNext(order, k);
        report := report + [LineOf(records[k])];
        pending := pending - {k};
        order := order + [k];
      }
      NothingPending(records.Keys, Elements(order));
    }
  }

  lemma GhostWaits(m: Store, ghosts: seq<string>, hosts: map<string, string>, g: string)
    requires IsHostTable(hosts, m) && NoDuplicates(ghosts) && Elements(ghosts) <= Ghosts(m, hosts)
    requires g in Ghosts(m, hosts) && g !in Elements(ghosts)
    ensures g in AllAbsorbed(m, ghosts, hosts) && AllAbsorbed(m, ghosts, hosts)[g] == m[g]
  {
    AbsorbingKeepsHolders(m, ghosts, hosts);
    assert Has(AllAbsorbed(m, ghosts, hosts), g);
  }

  lemma NothingPending(all: set<string>, done: set<string>)
    requires all - done == {} && done <= all
    ensures done == all
  {
    assert forall k :: k in all ==> k !in all - done;
  }

  lemma KeepsAllOrShrinks(m: Store, m': Store)
    requires m'.Keys <= m.Keys && forall k :: Has(m', k) ==> m'[k] == m[k]
    ensures |m'| < |m| <==> m' != m
  {
    if m'.Keys == m.Keys {
      assert forall k :: k in m' ==> Has(m', k);
      assert m' == m;
    } else {
      var k :| k in m && k !in m';
      ProperSubsetIsSmaller(m'.Keys, m.Keys);
    }
  }

  lemma {:induction false} ProperSubsetIsSmaller(a: set<string>, b: set<string>)
    requires a < b
    ensures |a| < |b|
  {
    if a != {} {
      var x :| x in a;
      ProperSubsetIsSmaller(a - {x}, b - {x});
    }
  }

  method Place(m: Store, record: Record) returns (m': Store)
    ensures m' == Placed(m, record)
  {
    var properKey := RecordKey(record.mac, record.deviceId);
    if properKey in m {
      var merged := MergeRecords(m[properKey], record);
      m' := m[properKey := merged];
    } else {
      m' := m[properKey := record];
    }
  }

  /** Maps IPs to keys of MAC-bearing records; a later record overwrites an earlier one on its IP. */
  method HostTable(m: Store) returns (hosts: map<string, string>)
    ensures IsHostTable(hosts, m)
  {
    hosts := map[];
    var pending := m.Keys;
    while pending != {}
      invariant pending <= m.Keys
      invariant forall k :: Has(m, k) && k !in pending && BearsMac(m[k]) ==> m[k].ip in hosts
      invariant forall ip :: ip in hosts ==> Has(m, hosts[ip]) && BearsMac(m[hosts[ip]]) && m[hosts[ip]].ip == ip
    {
      var k :| k in pending;
      assert Has(m, k);
      if m[k].mac.Some? && m[k].ip != "" {
        hosts := hosts[m[k].ip := k];
      }
      pending := pending - {k};
    }
  }
}
