/** The unified view: devices deduplicated by IP, and their linked interfaces folded into them, for any link map. */
module UnifiedView {
  import opened Options
  import opened Sequences
  import opened ControlRegistry
  import opened DeviceLinks

  // ---- Deduplication by IP

  function Ip(d: DeviceRecord): string {
    Meta(d, "ip").GetOr("")
  }

  predicate Prefers(existing: DeviceRecord, d: DeviceRecord) {
    || (Meta(existing, "mac").None? && Meta(d, "mac").Some?)
    || (Meta(existing, "is_active") != Some("true") && Meta(d, "is_active") == Some("true"))
    || ("Host " <= existing.displayName && !("Host " <= d.displayName))
  }

  /** The position of the device with this IP. */
  function PositionOf(devs: seq<DeviceRecord>, ip: string): Option<nat> {
    if devs == [] then None
    else match PositionOf(devs[..|devs| - 1], ip)
      case Some(i) => Some(i)
      case None => if Ip(devs[|devs| - 1]) == ip then Some(|devs| - 1) else None
  }

  lemma {:induction false} PositionIsFirst(devs: seq<DeviceRecord>, ip: string)
    ensures match PositionOf(devs, ip)
      case Some(i) => i < |devs| && Ip(devs[i]) == ip
      case None => forall j :: 0 <= j < |devs| ==> Ip(devs[j]) != ip
  {
    if devs != [] {
      PositionIsFirst(devs[..|devs| - 1], ip);
    }
  }

  function Placed(devs: seq<DeviceRecord>, d: DeviceRecord): seq<DeviceRecord> {
    var i := PositionOf(devs, Ip(d));
    if Ip(d) == "" || i.None? || i.value >= |devs| then devs + [d]
    else if Prefers(devs[i.value], d) then devs[i.value := d]
    else devs
  }

  function Deduped(devices: seq<DeviceRecord>): seq<DeviceRecord> {
    if devices == [] then [] else Placed(Deduped(devices[..|devices| - 1]), devices[|devices| - 1])
  }

  datatype Maps = Maps(devs: map<string, DeviceRecord>, macs: map<string, string>)

  function MapsOf(devs: seq<DeviceRecord>): Maps {
    if devs == [] then Maps(map[], map[])
    else
      var m, d := MapsOf(devs[..|devs| - 1]), devs[|devs| - 1];
      Maps(m.devs[d.deviceId := d], if Meta(d, "mac").Some? then m.macs[Meta(d, "mac").value := d.deviceId] else m.macs)
  }

  /** Every linked id, and the device ids that linked MACs stand for. */
  function SecondaryIds(maps: Maps, links: Links): set<string> {
    Secondaries(links) + set x | x in Secondaries(links) && x in maps.macs :: maps.macs[x]
  }

  predicate IsSecondary(ids: set<string>, d: DeviceRecord) {
    d.deviceId in ids || (Meta(d, "mac").GetOr("") != "" && Meta(d, "mac").value in ids)
  }

  /** The key under which a list is configured for a device: its id, else its MAC, else its IP key. */
  function ConfigKey(links: Links, d: DeviceRecord): Option<string> {
    var mac := Meta(d, "mac").GetOr("");
    if d.deviceId in links then Some(d.deviceId)
    else if mac != "" && mac in links then Some(mac)
    else if Ip(d) != "" && IpKey(d) in links then Some(IpKey(d))
    else None
  }

  function ConfiguredFor(links: Links, d: DeviceRecord): seq<string> {
    match ConfigKey(links, d)
    case Some(k) => ListOf(links, k)
    case None => []
  }

  function IpKey(d: DeviceRecord): string {
    "net-" + Text.Replaced(Ip(d), '.', '-')
  }

  /** The device id that an entry of a list stands for. */
  function Target(maps: Maps, x: string): string {
    if x in maps.macs then maps.macs[x] else x
  }

  function Resolved(maps: Maps, ids: seq<string>): seq<DeviceRecord> {
    if ids == [] then []
    else
      var actual := Target(maps, ids[|ids| - 1]);
      Resolved(maps, ids[..|ids| - 1]) + if actual in maps.devs then [maps.devs[actual]] else []
  }

  /** A device of the view; the merge candidate shown beside it is not part of this model. */
  datatype Unified = Unified(primary: DeviceRecord, secondaries: seq<DeviceRecord>)

  function Shown(maps: Maps, links: Links, devs: seq<DeviceRecord>): seq<Unified> {
    if devs == [] then []
    else
      var d := devs[|devs| - 1];
      Shown(maps, links, devs[..|devs| - 1]) +
      if IsSecondary(SecondaryIds(maps, links), d) then [] else [Unified(d, Resolved(maps, ConfiguredFor(links, d)))]
  }

  function UnifiedDevices(devices: seq<DeviceRecord>, links: Links): seq<Unified> {
    Shown(MapsOf(Deduped(devices)), links, Deduped(devices))
  }

  method BuildUnifiedDevices(devices: seq<DeviceRecord>, links: Links) returns (unified: seq<Unified>)
    ensures unified == UnifiedDevices(devices, links)
  {
    var deduped := DedupByIp(devices);
    var maps := BuildMaps(deduped);
    unified := ShowAll(maps, links, deduped);
  }

  method BuildMaps(deduped: seq<DeviceRecord>) returns (maps: Maps)
    ensures maps == MapsOf(deduped)
  {
    maps := Maps(map[], map[]);
    assert deduped[..0] == [];
    for i := 0 to |deduped|
      invariant maps == MapsOf(deduped[..i])
    {
      assert deduped[..i + 1][..i] == deduped[..i];
      var d := deduped[i];
      maps := Maps(maps.devs[d.deviceId := d],
        if Meta(d, "mac").Some? then maps.macs[Meta(d, "mac").value := d.deviceId] else maps.macs);
    }
    assert deduped[..|deduped|] == deduped;
  }

  method ShowAll(maps: Maps, links: Links, deduped: seq<DeviceRecord>) returns (unified: seq<Unified>)
    ensures unified == Shown(maps, links, deduped)
  {
    var secondaryIds := SecondaryIds(maps, links);
    unified := [];
    for i := 0 to |deduped|
      invariant unified == Shown(maps, links, deduped[..i])
    {
      assert deduped[..i + 1][..i] == deduped[..i];
      var d := deduped[i];
      if !IsSecondary(secondaryIds, d) {
        unified := unified + [Unified(d, Resolved(maps, ConfiguredFor(links, d)))];
      }
    }
    assert deduped[..|deduped|] == deduped;
  }

  /** Remembers where the device of each IP sits. */
  ghost predicate Locates(seenIps: map<string, nat>, devs: seq<DeviceRecord>) {
    forall ip :: ip != "" ==> PositionOf(devs, ip) == if ip in seenIps then Some(seenIps[ip]) else None
  }

  method DedupByIp(devices: seq<DeviceRecord>) returns (deduped: seq<DeviceRecord>)
    ensures deduped == Deduped(devices)
  {
    deduped := [];
    var seenIps: map<string, nat> := map[];
    assert devices[..0] == [];
    for i := 0 to |devices|
      invariant deduped == Deduped(devices[..i]) && Locates(seenIps, deduped)
    {
      assert devices[..i + 1][..i] == devices[..i];
      var d := devices[i];
      var ip := Ip(d);
      PositionIsFirst(deduped, ip);
      if ip == "" {
        AppendKeepsPositions(deduped, d);
        deduped := deduped + [d];
      } else if ip in seenIps {
        var existing := deduped[seenIps[ip]];
        if Prefers(existing, d) {
          ReplaceKeepsPositions(deduped, seenIps[ip], d);
          deduped := deduped[seenIps[ip] := d];
        }
      } else {
        AppendKeepsPositions(deduped, d);
        seenIps := seenIps[ip := |deduped|];
        deduped := deduped + [d];
      }
    }
    assert devices[..|devices|] == devices;
  }

  function PositionAfter(devs: seq<DeviceRecord>, d: DeviceRecord, ip: string): Option<nat> {
    if PositionOf(devs, ip).None? && Ip(d) == ip then Some(|devs|) else PositionOf(devs, ip)
  }

  lemma AppendKeepsPositions(devs: seq<DeviceRecord>, d: DeviceRecord)
    ensures forall ip :: PositionOf(devs + [d], ip) == PositionAfter(devs, d, ip)
  {
    assert (devs + [d])[..|devs|] == devs;
  }

  lemma {:induction false} ReplaceKeepsPositions(devs: seq<DeviceRecord>, i: nat, d: DeviceRecord)
    requires i < |devs| && Ip(d) == Ip(devs[i])
    ensures forall ip :: PositionOf(devs[i := d], ip) == PositionOf(devs, ip)
  {
    var n := |devs| - 1;
    if i < n {
      ReplaceKeepsPositions(devs[..n], i, d);
      assert devs[i := d][..n] == devs[..n][i := d];
    } else {
      assert devs[i := d][..n] == devs[..n];
    }
  }

  // ---- Facts about the view

  predicate Apart(d: DeviceRecord, e: DeviceRecord) {
    Ip(d) == Ip(e) ==> Ip(d) == ""
  }

  ghost predicate IpsUnshared(devs: seq<DeviceRecord>) {
    forall i, j :: 0 <= i < j < |devs| ==> Apart(devs[i], devs[j])
  }

  /** Some device of the list stands for `d`: one with its IP, or itself if it has none. */
  ghost predicate StoodFor(devs: seq<DeviceRecord>, d: DeviceRecord) {
    exists i :: 0 <= i < |devs| && Ip(devs[i]) == Ip(d) && (Ip(d) == "" ==> devs[i] == d)
  }

  lemma PlacingOne(devs: seq<DeviceRecord>, d: DeviceRecord)
    requires IpsUnshared(devs)
    ensures IpsUnshared(Placed(devs, d)) && StoodFor(Placed(devs, d), d)
    ensures forall e :: e in Placed(devs, d) ==> e in devs || e == d
    ensures forall e :: StoodFor(devs, e) ==> StoodFor(Placed(devs, d), e)
  {
    PositionIsFirst(devs, Ip(d));
    var after, at := Placed(devs, d), PositionOf(devs, Ip(d));
    if Ip(d) == "" || at.None? {
      assert Ip(after[|devs|]) == Ip(d);
    } else {
      assert Ip(after[at.value]) == Ip(d);
    }
    forall e | StoodFor(devs, e) ensures StoodFor(after, e) {
      var i :| 0 <= i < |devs| && Ip(devs[i]) == Ip(e) && (Ip(e) == "" ==> devs[i] == e);
      assert Ip(after[i]) == Ip(e);
    }
  }

  /** Deduplication leaves one device of the input for each non-empty IP, and all devices without one. */
  lemma {:induction false} DedupedIsUnshared(devices: seq<DeviceRecord>)
    ensures IpsUnshared(Deduped(devices))
    ensures forall d :: d in Deduped(devices) ==> d in devices
    ensures forall d :: d in devices ==> StoodFor(Deduped(devices), d)
  {
    if devices != [] {
      var init, d := devices[..|devices| - 1], devices[|devices| - 1];
      DedupedIsUnshared(init);
      PlacingOne(Deduped(init), d);
      assert devices == init + [d];
    }
  }

  lemma {:induction false} MapsAreFiled(devs: seq<DeviceRecord>)
    ensures forall id :: id in MapsOf(devs).devs ==> MapsOf(devs).devs[id].deviceId == id
  {
    if devs != [] {
      MapsAreFiled(devs[..|devs| - 1]);
    }
  }

  lemma {:induction false} ResolvedAreSecondary(maps: Maps, links: Links, ids: seq<string>)
    requires forall id :: id in maps.devs ==> maps.devs[id].deviceId == id
    requires forall x :: x in ids ==> x in Secondaries(links)
    ensures forall s :: s in Resolved(maps, ids) ==> s.deviceId in SecondaryIds(maps, links)
  {
    if ids != [] {
      var n := |ids| - 1;
      assert ids[n] in ids && forall x :: x in ids[..n] ==> x in ids;
      ResolvedAreSecondary(maps, links, ids[..n]);
    }
  }

  /** A device is shown as primary exactly if it is not a secondary; its secondaries are what its list resolves to. */
  lemma {:induction false} ShownAreTheOthers(maps: Maps, links: Links, devs: seq<DeviceRecord>)
    ensures forall u :: u in Shown(maps, links, devs) <==>
      u.primary in devs && !IsSecondary(SecondaryIds(maps, links), u.primary)
      && u.secondaries == Resolved(maps, ConfiguredFor(links, u.primary))
  {
    if devs != [] {
      ShownAreTheOthers(maps, links, devs[..|devs| - 1]);
      assert devs == devs[..|devs| - 1] + [devs[|devs| - 1]];
    }
  }

  /**
   For any link map, even a cyclic one: no device id is shown both as a primary and as a secondary, of
   the same device or of another.
   */
  lemma NeverBothPrimaryAndSecondary(devices: seq<DeviceRecord>, links: Links, u: Unified, v: Unified, s: DeviceRecord)
    requires u in UnifiedDevices(devices, links) && v in UnifiedDevices(devices, links) && s in v.secondaries
    ensures s.deviceId != u.primary.deviceId
  {
    var devs := Deduped(devices);
    var maps := MapsOf(devs);
    ShownAreTheOthers(maps, links, devs);
    MapsAreFiled(devs);
    ResolvedAreSecondary(maps, links, ConfiguredFor(links, v.primary));
  }

  ghost predicate PrimariesUnshared(us: seq<Unified>) {
    forall i, j :: 0 <= i < j < |us| ==> Apart(us[i].primary, us[j].primary)
  }

  lemma {:induction false} ShownStayUnshared(maps: Maps, links: Links, devs: seq<DeviceRecord>)
    requires IpsUnshared(devs)
    ensures PrimariesUnshared(Shown(maps, links, devs))
  {
    if devs != [] {
      var n := |devs| - 1;
      ShownStayUnshared(maps, links, devs[..n]);
      ShownAreTheOthers(maps, links, devs[..n]);
      var us := Shown(maps, links, devs[..n]);
      forall i | 0 <= i < |us| ensures Apart(us[i].primary, devs[n]) {
        assert us[i] in us;
        var k :| 0 <= k < n && devs[..n][k] == us[i].primary;
        assert Apart(devs[k], devs[n]);
      }
    }
  }

  /** At most one primary is shown for each non-empty IP, and every primary is a device of the input. */
  lemma OnePrimaryPerIp(devices: seq<DeviceRecord>, links: Links)
    ensures PrimariesUnshared(UnifiedDevices(devices, links))
    ensures forall u :: u in UnifiedDevices(devices, links) ==> u.primary in devices
  {
    DedupedIsUnshared(devices);
    ShownStayUnshared(MapsOf(Deduped(devices)), links, Deduped(devices));
    ShownAreTheOthers(MapsOf(Deduped(devices)), links, Deduped(devices));
  }

  /** The view is empty exactly if every device is a secondary of some link. */
  lemma EmptyIfAllAreSecondary(devices: seq<DeviceRecord>, links: Links)
    ensures (forall d :: d in Deduped(devices) ==> IsSecondary(SecondaryIds(MapsOf(Deduped(devices)), links), d))
      <==> UnifiedDevices(devices, links) == []
  {
    var devs := Deduped(devices);
    var maps := MapsOf(devs);
    ShownAreTheOthers(maps, links, devs);
    var us := UnifiedDevices(devices, links);
    if us != [] {
      assert us[0] in us;
    } else {
      forall d | d in devs ensures IsSecondary(SecondaryIds(maps, links), d) {
        assert Unified(d, Resolved(maps, ConfiguredFor(links, d))) !in us;
      }
    }
  }

  // ---- Which device is kept on an IP

  /** The device that deduplication keeps on an IP. */
  function Kept(devices: seq<DeviceRecord>, ip: string): Option<DeviceRecord> {
    match PositionOf(Deduped(devices), ip)
    case Some(i) => if i < |Deduped(devices)| then Some(Deduped(devices)[i]) else None
    case None => None
  }

  /** Of two records on an IP the newer one is kept if it is preferred. */
  lemma KeptNext(devices: seq<DeviceRecord>, d: DeviceRecord, ip: string)
    requires ip != ""
    ensures Kept(devices + [d], ip) ==
      if Ip(d) != ip then Kept(devices, ip)
      else if Kept(devices, ip).Some? && !Prefers(Kept(devices, ip).value, d) then Kept(devices, ip)
      else Some(d)
  {
    assert (devices + [d])[..|devices|] == devices;
    var devs := Deduped(devices);
    PositionIsFirst(devs, Ip(d));
    PositionIsFirst(devs, ip);
    AppendKeepsPositions(devs, d);
    var at := PositionOf(devs, Ip(d));
    if Ip(d) != "" && at.Some? && Prefers(devs[at.value], d) {
      ReplaceKeepsPositions(devs, at.value, d);
    }
  }

  predicate HasMac(d: Option<DeviceRecord>) {
    d.Some? && Meta(d.value, "mac").Some?
  }

  /** No later entry on the IP is preferred to entry `i`. */
  ghost predicate Unsurpassed(devices: seq<DeviceRecord>, ip: string, i: nat) {
    && i < |devices| && Ip(devices[i]) == ip
    && forall l :: i < l < |devices| && Ip(devices[l]) == ip ==> !Prefers(devices[i], devices[l])
  }

  /** Entry `i` is the first on the IP to which no later one is preferred. */
  ghost predicate Chosen(devices: seq<DeviceRecord>, ip: string, i: nat) {
    Unsurpassed(devices, ip, i) && forall j: nat :: j < i ==> !Unsurpassed(devices, ip, j)
  }

  lemma UnsurpassedNext(devices: seq<DeviceRecord>, d: DeviceRecord, ip: string, i: nat)
    ensures i < |devices| ==>
      (Unsurpassed(devices + [d], ip, i) <==>
        Unsurpassed(devices, ip, i) && (Ip(d) == ip ==> !Prefers(devices[i], d)))
    ensures i == |devices| ==> (Unsurpassed(devices + [d], ip, i) <==> Ip(d) == ip)
  {
    var all := devices + [d];
    assert forall l :: 0 <= l < |devices| ==> all[l] == devices[l];
    assert all[|devices|] == d;
  }

  lemma ChosenNext(devices: seq<DeviceRecord>, d: DeviceRecord, ip: string, i: nat)
    requires Chosen(devices, ip, i)
    ensures Ip(d) != ip || !Prefers(devices[i], d) ==> Chosen(devices + [d], ip, i)
    ensures Ip(d) == ip && Prefers(devices[i], d) ==> Chosen(devices + [d], ip, |devices|)
  {
    forall j: nat ensures j < |devices| ==>
      (Unsurpassed(devices + [d], ip, j) <==>
        Unsurpassed(devices, ip, j) && (Ip(d) == ip ==> !Prefers(devices[j], d)))
    {
      UnsurpassedNext(devices, d, ip, j);
    }
    UnsurpassedNext(devices, d, ip, |devices|);
    if Ip(d) == ip && Prefers(devices[i], d) {
      forall j: nat | j < |devices| ensures !Unsurpassed(devices + [d], ip, j) {
        if i < j && Unsurpassed(devices, ip, j) {
          assert !Prefers(devices[i], devices[j]);
        }
      }
    }
  }

  /**
   For every list: on each IP that some entry has, deduplication keeps the first entry on it to which no later
   one on it is preferred.
   */
  lemma {:induction false} FirstUnsurpassedIsKept(devices: seq<DeviceRecord>, ip: string)
    requires ip != ""
    ensures Kept(devices, ip).None? <==> forall i :: 0 <= i < |devices| ==> Ip(devices[i]) != ip
    ensures Kept(devices, ip).Some? ==> exists i: nat :: Chosen(devices, ip, i)
    ensures forall i: nat :: Chosen(devices, ip, i) ==> Kept(devices, ip) == Some(devices[i])
  {
    if devices != [] {
      var n := |devices| - 1;
      var init, d := devices[..n], devices[n];
      assert init + [d] == devices;
      FirstUnsurpassedIsKept(init, ip);
      KeptNext(init, d, ip);
      if Kept(init, ip).Some? {
        var i: nat :| Chosen(init, ip, i);
        ChosenNext(init, d, ip, i);
        var k := if Ip(d) == ip && Prefers(init[i], d) then n else i;
        assert Chosen(devices, ip, k) && Kept(devices, ip) == Some(devices[k]);
        OneIsChosen(devices, ip, k);
      } else {
        NewIsChosen(init, d, ip);
        assert Ip(d) == ip ==> Chosen(devices, ip, n);
      }
    }
  }

  lemma OneIsChosen(devices: seq<DeviceRecord>, ip: string, k: nat)
    requires Chosen(devices, ip, k)
    ensures forall i: nat :: Chosen(devices, ip, i) ==> i == k
  {
    forall i: nat | Chosen(devices, ip, i) ensures i == k {
      assert i < k ==> !Unsurpassed(devices, ip, i);
      assert k < i ==> !Unsurpassed(devices, ip, k);
    }
  }

  lemma NewIsChosen(devices: seq<DeviceRecord>, d: DeviceRecord, ip: string)
    requires forall i :: 0 <= i < |devices| ==> Ip(devices[i]) != ip
    ensures forall i: nat :: Chosen(devices + [d], ip, i) <==> i == |devices| && Ip(d) == ip
  {
    forall i: nat ensures Unsurpassed(devices + [d], ip, i) <==> i == |devices| && Ip(d) == ip {
      UnsurpassedNext(devices, d, ip, i);
    }
  }

  /**
   Deduplication is meant to prefer records with a MAC, but any one reason to prefer the newer record is
   enough. For every list: the device kept on an IP has a MAC if and only if the first entry on the IP that no
   later one surpasses has one.
   */
  lemma MacIsKeptExactly(devices: seq<DeviceRecord>, ip: string)
    requires ip != ""
    ensures HasMac(Kept(devices, ip)) <==> exists i: nat :: Chosen(devices, ip, i) && HasMac(Some(devices[i]))
  {
    FirstUnsurpassedIsKept(devices, ip);
  }

  /**
   Of two records on one IP the newer one is kept if and only if it alone has a MAC, it alone is active, or the older one
   alone is named "Host ...".
   */
  lemma NewerIsKeptExactly(a: DeviceRecord, b: DeviceRecord)
    requires Ip(a) == Ip(b) != ""
    ensures Deduped([a, b]) ==
      if || ("mac" !in a.metadata && "mac" in b.metadata)
         || (!("is_active" in a.metadata && a.metadata["is_active"] == "true")
             && "is_active" in b.metadata && b.metadata["is_active"] == "true")
         || ("Host " <= a.displayName && !("Host " <= b.displayName))
      then [b] else [a]
  {
    assert [a, b][..1] == [a] && [a][..0] == [];
    assert Deduped([]) == [] && Deduped([a]) == Placed([], a) == [a];
    assert PositionOf([a], Ip(b)) == Some(0);
    assert [a][0 := b] == [b];
    assert [b][..0] == [];
  }

  /** So the one with the MAC gives way exactly if the newer is active or specifically named and it is not. */
  lemma DedupMayDropTheMac(a: DeviceRecord, b: DeviceRecord)
    requires Ip(a) == Ip(b) != "" && Meta(a, "mac").Some? && Meta(b, "mac").None?
    ensures Deduped([a, b]) == [a] || Deduped([a, b]) == [b]
    ensures Deduped([a, b]) == [b] <==>
      || (Meta(a, "is_active") != Some("true") && Meta(b, "is_active") == Some("true"))
      || ("Host " <= a.displayName && !("Host " <= b.displayName))
    ensures HasMac(Kept([a, b], Ip(a))) <==> Deduped([a, b]) == [a]
  {
    NewerIsKeptExactly(a, b);
    assert [b][..0] == [];
  }

  // ---- What ids, MACs and keys stand for

  /** Device `i` is the last of the list with this MAC. */
  ghost predicate LastWithMac(devs: seq<DeviceRecord>, mac: string, i: int) {
    && 0 <= i < |devs| && "mac" in devs[i].metadata && devs[i].metadata["mac"] == mac
    && forall j :: i < j < |devs| && "mac" in devs[j].metadata ==> devs[j].metadata["mac"] != mac
  }

  ghost predicate LastWithId(devs: seq<DeviceRecord>, id: string, i: int) {
    0 <= i < |devs| && devs[i].deviceId == id && forall j :: i < j < |devs| ==> devs[j].deviceId != id
  }

  lemma LastWithNext(devs: seq<DeviceRecord>, x: string, i: int)
    requires devs != []
    ensures var n := |devs| - 1;
      && (LastWithMac(devs, x, i) <==>
            if Meta(devs[n], "mac") == Some(x) then i == n else LastWithMac(devs[..n], x, i))
      && (LastWithId(devs, x, i) <==> if devs[n].deviceId == x then i == n else LastWithId(devs[..n], x, i))
  {
  }

  lemma {:induction false} MacStandsForLast(devs: seq<DeviceRecord>, x: string)
    ensures x in MapsOf(devs).macs <==> exists i :: LastWithMac(devs, x, i)
    ensures forall i :: LastWithMac(devs, x, i) ==> MapsOf(devs).macs[x] == devs[i].deviceId
  {
    if devs != [] {
      var n := |devs| - 1;
      MacStandsForLast(devs[..n], x);
      forall i { LastWithNext(devs, x, i); }
      if Meta(devs[n], "mac") == Some(x) {
        assert LastWithMac(devs, x, n);
      } else if i :| LastWithMac(devs[..n], x, i) {
        assert LastWithMac(devs, x, i);
      }
    }
  }

  /** The device shown for an id is the last listed with it. */
  lemma {:induction false} IdStandsForLast(devs: seq<DeviceRecord>, x: string)
    ensures x in MapsOf(devs).devs <==> exists i :: LastWithId(devs, x, i)
    ensures forall i :: LastWithId(devs, x, i) ==> MapsOf(devs).devs[x] == devs[i]
  {
    if devs != [] {
      var n := |devs| - 1;
      IdStandsForLast(devs[..n], x);
      forall i { LastWithNext(devs, x, i); }
      if devs[n].deviceId == x {
        assert LastWithId(devs, x, n);
      } else if i :| LastWithId(devs[..n], x, i) {
        assert LastWithId(devs, x, i);
      }
    }
  }

  /** An entry of a list stands for the last listed device with it as MAC, else for itself. */
  lemma TargetExactly(devs: seq<DeviceRecord>, x: string)
    ensures forall i :: LastWithMac(devs, x, i) ==> Target(MapsOf(devs), x) == devs[i].deviceId
    ensures (forall i :: !LastWithMac(devs, x, i)) ==> Target(MapsOf(devs), x) == x
  {
    MacStandsForLast(devs, x);
  }

  /** A device takes the list under its id, else the one under its MAC, else the one under its address with dashes. */
  lemma ConfigKeyExactly(links: Links, d: DeviceRecord, k: string)
    ensures var mac := if "mac" in d.metadata then d.metadata["mac"] else "";
      var ip := if "ip" in d.metadata then d.metadata["ip"] else "";
      ConfigKey(links, d) == Some(k) <==>
        k in links && (|| k == d.deviceId
                       || (d.deviceId !in links && k == mac != "")
                       || (d.deviceId !in links && (mac == "" || mac !in links) && ip != ""
                           && k == "net-" + Text.Replaced(ip, '.', '-')))
  {
  }

  // ---- Which devices are shown

  ghost predicate ShownIn(u: Unified, id: string) {
    u.primary.deviceId == id || InList(u.secondaries, id)
  }

  ghost predicate InList(devs: seq<DeviceRecord>, id: string) {
    exists d :: d in devs && d.deviceId == id
  }

  /** The id is shown, as a primary or as an interface of one. */
  ghost predicate IsShown(devices: seq<DeviceRecord>, links: Links, id: string) {
    exists u :: u in UnifiedDevices(devices, links) && ShownIn(u, id)
  }

  /** An entry of a list names an id if it is that id or a MAC that stands for it. */
  predicate NamesId(maps: Maps, x: string, id: string) {
    x == id || (x in maps.macs && maps.macs[x] == id)
  }

  predicate Names(maps: Maps, x: string, d: DeviceRecord) {
    NamesId(maps, x, d.deviceId) || (Meta(d, "mac").GetOr("") != "" && NamesId(maps, x, Meta(d, "mac").value))
  }

  ghost predicate LinkedUnder(maps: Maps, links: Links, k: string, d: DeviceRecord) {
    exists x :: Owns(links, k, x) && Names(maps, x, d)
  }

  /** Some link names the device. */
  ghost predicate IsLinked(maps: Maps, links: Links, d: DeviceRecord) {
    exists k :: LinkedUnder(maps, links, k, d)
  }

  lemma SecondaryIfLinked(maps: Maps, links: Links, d: DeviceRecord)
    ensures IsSecondary(SecondaryIds(maps, links), d) <==> IsLinked(maps, links, d)
  {
    SecondariesAreOwned(links);
    if IsSecondary(SecondaryIds(maps, links), d) {
      var y :| y in SecondaryIds(maps, links) && (y == d.deviceId || (Some(y) == Meta(d, "mac") && y != ""));
      var x :| x in Secondaries(links) && NamesId(maps, x, y);
      var k :| Owns(links, k, x);
      assert LinkedUnder(maps, links, k, d);
    }
    if IsLinked(maps, links, d) {
      var k, x :| Owns(links, k, x) && Names(maps, x, d);
      assert x in Secondaries(links);
    }
  }

  /** The list under `k` leads to the device id. */
  ghost predicate LeadsTo(maps: Maps, links: Links, k: string, id: string) {
    exists x :: Owns(links, k, x) && Target(maps, x) == id
  }

  lemma {:induction false} ResolvedAre(maps: Maps, ids: seq<string>, id: string)
    requires forall i :: i in maps.devs ==> maps.devs[i].deviceId == i
    ensures InList(Resolved(maps, ids), id) <==> id in maps.devs && exists x :: x in ids && Target(maps, x) == id
  {
    if ids != [] {
      var init, x := ids[..|ids| - 1], ids[|ids| - 1];
      ResolvedAre(maps, init, id);
      assert ids == init + [x];
      var before, now := Resolved(maps, init), Resolved(maps, ids);
      if InList(before, id) {
        var d :| d in before && d.deviceId == id;
        assert d in now;
      }
      if Target(maps, x) in maps.devs {
        assert maps.devs[Target(maps, x)] in now;
      }
    }
  }

  lemma {:induction false} MapsListAll(devs: seq<DeviceRecord>)
    ensures forall id :: id in MapsOf(devs).devs <==> InList(devs, id)
  {
    if devs != [] {
      var n := |devs| - 1;
      MapsListAll(devs[..n]);
      forall id ensures InList(devs, id) <==> InList(devs[..n], id) || id == devs[n].deviceId {
        assert devs == devs[..n] + [devs[n]];
        assert devs[n] in devs;
        if InList(devs[..n], id) {
          var d :| d in devs[..n] && d.deviceId == id;
          assert d in devs;
        }
      }
    }
  }

  /** The device is no interface of another, and shows the id: its own, or one that its list leads to. */
  ghost predicate Displays(maps: Maps, links: Links, d: DeviceRecord, id: string) {
    && !IsLinked(maps, links, d)
    && (d.deviceId == id || (ConfigKey(links, d).Some? && LeadsTo(maps, links, ConfigKey(links, d).value, id)))
  }

  lemma ShowsExactly(devs: seq<DeviceRecord>, links: Links, d: DeviceRecord, id: string)
    requires d in devs
    ensures var maps := MapsOf(devs);
      var u := Unified(d, Resolved(maps, ConfiguredFor(links, d)));
      !IsLinked(maps, links, d) ==> (ShownIn(u, id) <==> InList(devs, id) && Displays(maps, links, d, id))
  {
    MapsAreFiled(devs);
    MapsListAll(devs);
    ResolvedAre(MapsOf(devs), ConfiguredFor(links, d), id);
    ListLeads(MapsOf(devs), links, d, id);
  }

  /** An id is shown if and only if it is listed and some listed device that no link names displays it. */
  lemma ShownExactly(devices: seq<DeviceRecord>, links: Links, id: string)
    ensures IsShown(devices, links, id) <==>
      InList(Deduped(devices), id) && exists d :: d in Deduped(devices) && Displays(MapsOf(Deduped(devices)), links, d, id)
  {
    var devs := Deduped(devices);
    var maps := MapsOf(devs);
    ShownAreTheOthers(maps, links, devs);
    if IsShown(devices, links, id) {
      var u :| u in UnifiedDevices(devices, links) && ShownIn(u, id);
      SecondaryIfLinked(maps, links, u.primary);
      ShowsExactly(devs, links, u.primary, id);
    }
    if InList(devs, id) && exists d :: d in devs && Displays(maps, links, d, id) {
      var d :| d in devs && Displays(maps, links, d, id);
      DisplayedIsShown(devices, links, d, id);
    }
  }

  lemma DisplayedIsShown(devices: seq<DeviceRecord>, links: Links, d: DeviceRecord, id: string)
    requires InList(Deduped(devices), id) && d in Deduped(devices) && Displays(MapsOf(Deduped(devices)), links, d, id)
    ensures IsShown(devices, links, id)
  {
    var devs := Deduped(devices);
    var maps := MapsOf(devs);
    SecondaryIfLinked(maps, links, d);
    ShowsExactly(devs, links, d, id);
    ShownAreTheOthers(maps, links, devs);
    var u := Unified(d, Resolved(maps, ConfiguredFor(links, d)));
    assert u in UnifiedDevices(devices, links) && ShownIn(u, id);
  }

  lemma ListLeads(maps: Maps, links: Links, d: DeviceRecord, id: string)
    ensures (exists x :: x in ConfiguredFor(links, d) && Target(maps, x) == id) <==>
      ConfigKey(links, d).Some? && LeadsTo(maps, links, ConfigKey(links, d).value, id)
  {
    if ConfigKey(links, d).Some? {
      var k := ConfigKey(links, d).value;
      assert forall x :: x in ConfiguredFor(links, d) <==> Owns(links, k, x);
    }
  }

  /** No listed device that takes its list from `k` is shown as a primary: it is named by a link, or there is none. */
  ghost predicate Silent(devs: seq<DeviceRecord>, links: Links, k: string) {
    forall p :: p in devs && ConfigKey(links, p) == Some(k) ==> IsLinked(MapsOf(devs), links, p)
  }

  /**
   A listed device is hidden if and only if it is named by a link, and every owner whose list leads to it is
   silent: unlisted, or itself named by a link.
   */
  lemma HiddenExactly(devices: seq<DeviceRecord>, links: Links, id: string)
    requires InList(Deduped(devices), id)
    ensures var devs := Deduped(devices);
      !IsShown(devices, links, id) <==>
        && (forall d :: d in devs && d.deviceId == id ==> IsLinked(MapsOf(devs), links, d))
        && (forall k :: LeadsTo(MapsOf(devs), links, k, id) ==> Silent(devs, links, k))
  {
    ShownExactly(devices, links, id);
    var devs := Deduped(devices);
    var maps := MapsOf(devs);
    if IsShown(devices, links, id) {
      var d :| d in devs && Displays(maps, links, d, id);
      assert d.deviceId != id ==> !Silent(devs, links, ConfigKey(links, d).value);
    } else {
      forall k | LeadsTo(maps, links, k, id) ensures Silent(devs, links, k) {
        forall p | p in devs && ConfigKey(links, p) == Some(k) ensures IsLinked(maps, links, p) {
          assert !Displays(maps, links, p, id);
        }
      }
      forall d | d in devs && d.deviceId == id ensures IsLinked(maps, links, d) {
        assert !Displays(maps, links, d, id);
      }
    }
  }

  // ---- Chains and cycles

  /** The id is linked, and so is every id it is linked under. */
  ghost predicate OwnersAreLinked(links: Links, id: string) {
    Owned(links, id) && forall k :: Owns(links, k, id) ==> Owned(links, k)
  }

  /** No link stands for the device by its MAC, and a device with an owner of it as IP key is linked too. */
  ghost predicate KnownByIdOnly(devices: seq<DeviceRecord>, links: Links, id: string) {
    forall d :: d in devices ==>
      && (d.deviceId == id && Meta(d, "mac").Some? ==> !Owned(links, Meta(d, "mac").value))
      && (Owns(links, IpKey(d), id) ==> Owned(links, d.deviceId))
  }

  lemma {:induction false} MacsOrigin(devs: seq<DeviceRecord>)
    ensures forall m :: m in MapsOf(devs).macs ==>
      exists d :: d in devs && Meta(d, "mac") == Some(m) && d.deviceId == MapsOf(devs).macs[m]
  {
    if devs != [] {
      var n := |devs| - 1;
      MacsOrigin(devs[..n]);
      assert devs == devs[..n] + [devs[n]];
    }
  }

  lemma OwnedIsLinked(maps: Maps, links: Links, d: DeviceRecord, x: string)
    requires Owned(links, x) && Names(maps, x, d)
    ensures IsLinked(maps, links, d)
  {
    var k :| Owns(links, k, x);
    assert LinkedUnder(maps, links, k, d);
  }

  /** A list that leads to such a device belongs to none that is shown as a primary. */
  lemma OwnersStaySilent(devices: seq<DeviceRecord>, links: Links, d: DeviceRecord, id: string)
    requires OwnersAreLinked(links, id) && KnownByIdOnly(devices, links, id) && d in Deduped(devices)
    requires var maps := MapsOf(Deduped(devices));
      ConfigKey(links, d).Some? && LeadsTo(maps, links, ConfigKey(links, d).value, id)
    ensures IsLinked(MapsOf(Deduped(devices)), links, d)
  {
    var maps, k := MapsOf(Deduped(devices)), ConfigKey(links, d).value;
    DedupedIsUnshared(devices);
    MacsOrigin(Deduped(devices));
    var x :| Owns(links, k, x) && Target(maps, x) == id;
    assert x !in maps.macs && x == id;
    OwnedIsLinked(maps, links, d, if k == IpKey(d) then d.deviceId else k);
  }

  /** One link below a linked device is enough to hide a device. */
  lemma LinkedOwnersHide(devices: seq<DeviceRecord>, links: Links, id: string)
    requires OwnersAreLinked(links, id) && KnownByIdOnly(devices, links, id)
    ensures !IsShown(devices, links, id)
  {
    var maps := MapsOf(Deduped(devices));
    ShownExactly(devices, links, id);
    forall d | d in Deduped(devices) ensures !Displays(maps, links, d, id) {
      if d.deviceId == id {
        OwnedIsLinked(maps, links, d, id);
      } else if ConfigKey(links, d).Some? && LeadsTo(maps, links, ConfigKey(links, d).value, id) {
        OwnersStaySilent(devices, links, d, id);
      }
    }
  }

  /** Every id of the group is linked, and only under ids of the group: a cycle of links, or several. */
  ghost predicate LinkedAmongThemselves(links: Links, group: set<string>) {
    forall x :: x in group ==> Owned(links, x) && forall k :: Owns(links, k, x) ==> k in group
  }

  /** Devices on a cycle of links vanish: none of them is shown, neither as a primary nor as a secondary. */
  lemma CyclesHideDevices(devices: seq<DeviceRecord>, links: Links, group: set<string>)
    requires LinkedAmongThemselves(links, group) && forall id :: id in group ==> KnownByIdOnly(devices, links, id)
    ensures forall id :: id in group ==> !IsShown(devices, links, id)
  {
    forall id | id in group ensures !IsShown(devices, links, id) {
      LinkedOwnersHide(devices, links, id);
    }
  }

  function Bare(id: string): DeviceRecord {
    DeviceRecord("network-discovery", id, id, "", [], map[])
  }

  /** Without any cycle: "c" is linked under "b", then "b" under "a", and "c" is no longer shown. */
  lemma ChainHidesItsEnd()
    ensures var devices, links := [Bare("a"), Bare("b"), Bare("c")], LinkAdded(LinkAdded(map[], "b", "c"), "a", "b");
      InList(Deduped(devices), "c") && !IsShown(devices, links, "c") && IsShown(devices, LinkAdded(map[], "b", "c"), "c")
  {
    var devices := [Bare("a"), Bare("b"), Bare("c")];
    var one: Links := map["b" := ["c"]];
    var two := one["a" := ["b"]];
    BareLinks();
    WithoutIpsAllStay(devices);
    assert Bare("c") in devices;
    LinkHides(devices, two);
    LinkShows(devices, one);
  }

  lemma LinkHides(devices: seq<DeviceRecord>, links: Links)
    requires devices == [Bare("a"), Bare("b"), Bare("c")] && links == map["b" := ["c"], "a" := ["b"]]
    ensures !IsShown(devices, links, "c")
  {
    assert Owns(links, "b", "c") && Owns(links, "a", "b");
    assert forall d :: d in devices ==> Ip(d) == "" && IpKey(d) == "net-";
    LinkedOwnersHide(devices, links, "c");
  }

  lemma LinkShows(devices: seq<DeviceRecord>, links: Links)
    requires devices == [Bare("a"), Bare("b"), Bare("c")] && links == map["b" := ["c"]] && Deduped(devices) == devices
    ensures IsShown(devices, links, "c")
  {
    var maps := MapsOf(devices);
    MacsOrigin(devices);
    assert maps.macs == map[];
    assert Owns(links, "b", "c") && Target(maps, "c") == "c";
    assert LeadsTo(maps, links, "b", "c");
    assert Bare("b") in devices && Bare("c") in devices;
    assert forall k, x :: Owns(links, k, x) ==> x == "c";
    assert Displays(maps, links, Bare("b"), "c");
    ShownExactly(devices, links, "c");
  }

  lemma BareLinks()
    ensures LinkAdded(map[], "b", "c") == map["b" := ["c"]]
    ensures LinkAdded(map["b" := ["c"]], "a", "b") == map["b" := ["c"], "a" := ["b"]]
  {
    var none: Links := map[];
    assert ListOf(none, "b") + ["c"] == ["c"];
    assert ListOf(map["b" := ["c"]], "a") + ["b"] == ["b"];
  }

  lemma {:induction false} WithoutIpsAllStay(devices: seq<DeviceRecord>)
    requires forall i :: 0 <= i < |devices| ==> Ip(devices[i]) == ""
    ensures Deduped(devices) == devices
  {
    if devices != [] {
      WithoutIpsAllStay(devices[..|devices| - 1]);
    }
  }

  // ---- What linking and unlinking again leaves of the view

  lemma {:induction false} WithoutIdAbsent(ids: seq<string>, id: string)
    requires id !in ids
    ensures WithoutId(ids, id) == ids && WithoutId(ids + [id], id) == ids
  {
    if ids != [] {
      WithoutIdAbsent(ids[..|ids| - 1], id);
      assert ids[|ids| - 1] in ids;
    }
    assert (ids + [id])[..|ids|] == ids;
  }

  lemma RemovingNothing(links: Links, k: string, x: string)
    requires !Owns(links, k, x)
    ensures OneWayRemoved(links, k, x) == links
  {
    if k in links {
      WithoutIdAbsent(links[k], x);
    }
  }

  lemma RemovingTheLast(links: Links, k: string, x: string)
    requires !Owns(links, k, x)
    ensures OneWayRemoved(links[k := ListOf(links, k) + [x]], k, x) == links[k := ListOf(links, k)]
  {
    WithoutIdAbsent(ListOf(links, k), x);
  }

  /** A new link that is removed again leaves the links as they were, but for a list that is now empty. */
  lemma UnlinkLeavesAnEmptyList(links: Links, a: string, b: string)
    requires !Owns(links, a, b) && !Owns(links, b, a)
    ensures var p := Oriented(a, b).0;
      LinkRemoved(LinkAdded(links, a, b), a, b) == if p in links then links else links[p := []]
  {
    var (p, l) := Oriented(a, b);
    var added, base := LinkAdded(links, a, b), links[p := ListOf(links, p)];
    assert !Owns(links, p, l) && added == links[p := ListOf(links, p) + [l]];
    RemovingTheLast(links, p, l);
    if p == a {
      RemovingNothing(base, l, p);
    } else {
      RemovingNothing(added, l, p);
    }
  }

  lemma {:induction false} SameLength(maps: Maps, links: Links, links': Links, devs: seq<DeviceRecord>)
    requires Secondaries(links) == Secondaries(links')
    ensures |Shown(maps, links, devs)| == |Shown(maps, links', devs)|
  {
    if devs != [] {
      SameLength(maps, links, links', devs[..|devs| - 1]);
    }
  }

  ghost predicate SameListFor(maps: Maps, links: Links, links': Links, d: DeviceRecord) {
    Resolved(maps, ConfiguredFor(links, d)) == Resolved(maps, ConfiguredFor(links', d))
  }

  /** With the same ids linked, two views are equal if and only if each primary has the same interfaces in both. */
  lemma {:induction false} ShownAgree(maps: Maps, links: Links, links': Links, devs: seq<DeviceRecord>)
    requires Secondaries(links) == Secondaries(links')
    ensures Shown(maps, links, devs) == Shown(maps, links', devs) <==>
      forall d :: d in devs && !IsLinked(maps, links, d) ==> SameListFor(maps, links, links', d)
  {
    if devs != [] {
      var n := |devs| - 1;
      var init, d := devs[..n], devs[n];
      assert devs == init + [d];
      ShownAgree(maps, links, links', init);
      SameLength(maps, links, links', init);
      SecondaryIfLinked(maps, links, d);
      var last := if IsLinked(maps, links, d) then [] else [Unified(d, Resolved(maps, ConfiguredFor(links, d)))];
      var last' := if IsLinked(maps, links, d) then [] else [Unified(d, Resolved(maps, ConfiguredFor(links', d)))];
      PartsAgree(Shown(maps, links, init), last, Shown(maps, links', init), last');
    }
  }

  /** A list under `k` would come before any the device has. */
  predicate ComesFirst(links: Links, d: DeviceRecord, k: string) {
    d.deviceId == k || (d.deviceId !in links && Meta(d, "mac") == Some(k) && k != "")
  }

  /**
   Linking two ids and unlinking them again leaves the view as it was if and only if the list of the primary was
   there before, or else no device is shown whose interfaces stand in a list that the empty one now hides.
   */
  lemma UnlinkRestoresTheView(devices: seq<DeviceRecord>, links: Links, a: string, b: string)
    requires !Owns(links, a, b) && !Owns(links, b, a)
    ensures var p, devs := Oriented(a, b).0, Deduped(devices);
      var maps := MapsOf(devs);
      UnifiedDevices(devices, LinkRemoved(LinkAdded(links, a, b), a, b)) == UnifiedDevices(devices, links) <==>
        p in links || forall d :: d in devs && ComesFirst(links, d, p) && !IsLinked(maps, links, d) ==>
          Resolved(maps, ConfiguredFor(links, d)) == []
  {
    var p, devs := Oriented(a, b).0, Deduped(devices);
    var maps := MapsOf(devs);
    UnlinkLeavesAnEmptyList(links, a, b);
    if p !in links {
      var after := links[p := []];
      assert forall k, x :: Owns(after, k, x) <==> Owns(links, k, x);
      SecondariesAreOwned(links);
      SecondariesAreOwned(after);
      SameOwned(links, after);
      ShownAgree(maps, links, after, devs);
      forall d | d in devs ensures SameListFor(maps, links, after, d) <==>
        (ComesFirst(links, d, p) ==> Resolved(maps, ConfiguredFor(links, d)) == [])
      {
        EmptyListFor(links, d, p);
      }
    }
  }

  lemma SameOwned(links: Links, links': Links)
    requires forall k, x :: Owns(links, k, x) <==> Owns(links', k, x)
    ensures Secondaries(links) == Secondaries(links')
  {
    SecondariesAreOwned(links);
    SecondariesAreOwned(links');
    forall x ensures x in Secondaries(links) <==> x in Secondaries(links') {
      if Owned(links, x) {
        var k :| Owns(links, k, x);
        assert Owns(links', k, x);
      }
      if Owned(links', x) {
        var k :| Owns(links', k, x);
        assert Owns(links, k, x);
      }
    }
  }

  lemma EmptyListFor(links: Links, d: DeviceRecord, p: string)
    requires p !in links
    ensures ConfiguredFor(links[p := []], d) == if ComesFirst(links, d, p) then [] else ConfiguredFor(links, d)
  {
  }

  /** A device with id "a" whose interface "x" is linked under its MAC "m" loses it by linking and unlinking "y". */
  lemma EmptyListHidesTheMacList()
    ensures var devices, links := [Bare("a").(metadata := map["mac" := "m"]), Bare("x")], map["m" := ["x"]];
      IsShown(devices, links, "x") && !IsShown(devices, LinkRemoved(LinkAdded(links, "a", "y"), "a", "y"), "x")
  {
    var d := Bare("a").(metadata := map["mac" := "m"]);
    var devices, links: Links := [d, Bare("x")], map["m" := ["x"]];
    WithoutIpsAllStay(devices);
    assert !Owns(links, "a", "y") && !Owns(links, "y", "a") && Oriented("a", "y") == ("a", "y");
    UnlinkLeavesAnEmptyList(links, "a", "y");
    MacListShows(devices, links);
    MacListHides(devices, links["a" := []]);
  }

  lemma MacListShows(devices: seq<DeviceRecord>, links: Links)
    requires devices == [Bare("a").(metadata := map["mac" := "m"]), Bare("x")] && Deduped(devices) == devices
    requires links == map["m" := ["x"]]
    ensures IsShown(devices, links, "x")
  {
    var maps := MapsOf(devices);
    MacsOrigin(devices);
    assert devices[0] in devices && devices[1] in devices;
    assert Owns(links, "m", "x") && Target(maps, "x") == "x";
    assert forall k, x :: Owns(links, k, x) ==> x == "x";
    assert LeadsTo(maps, links, "m", "x");
    assert Displays(maps, links, devices[0], "x");
    ShownExactly(devices, links, "x");
  }

  lemma MacListHides(devices: seq<DeviceRecord>, links: Links)
    requires devices == [Bare("a").(metadata := map["mac" := "m"]), Bare("x")] && Deduped(devices) == devices
    requires links == map["m" := ["x"], "a" := []]
    ensures !IsShown(devices, links, "x")
  {
    var maps := MapsOf(devices);
    assert Owns(links, "m", "x");
    OwnedIsLinked(maps, links, devices[1], "x");
    assert forall x :: !Owns(links, "a", x);
    assert ConfigKey(links, devices[0]) == Some("a") && !LeadsTo(maps, links, "a", "x");
    ShownExactly(devices, links, "x");
  }
}
