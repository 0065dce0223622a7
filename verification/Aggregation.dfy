/**
 Aggregation of raw observations into devices: a fold into a map keyed by IP, else MAC, else source,
 followed by a pass over the devices and a sort. Classification, vendor and product lookup are abstract.
 */
module Aggregation {
  import opened Options
  import opened Text
  import opened Sequences
  import opened HistoryRecords
  import opened HistorySweep

  datatype Observation = Observation(
    ip: string, mac: Option<string>, interface: string, hostname: Option<string>, source: string,
    activeHint: Option<bool>)

  datatype Product = Product(id: string, name: string, category: string, icon: string)

  /** A device as the classification rules see it. */
  datatype Traits = Traits(
    name: string, ip: string, mac: Option<string>, hostname: Option<string>, vendor: Option<string>, interface: string)

  /** What this model does not look into; addresses are compared by the number `address` yields. */
  datatype Rules = Rules(
    classify: Traits -> Category,
    vendorId: string -> Option<string>,
    vendorName: string -> Option<string>,
    product: (string, Option<string>) -> Option<Product>,
    address: string -> Option<nat>)

  // ---- Keys

  predicate RealIp(ip: string) {
    ip != "" && ip != "0.0.0.0"
  }

  function Key(o: Observation): string {
    if RealIp(o.ip) then o.ip
    else if o.mac.Some? then "mac:" + Lower(o.mac.value)
    else "raw:" + o.source
  }

  function NewDeviceId(o: Observation): string {
    if RealIp(o.ip) then "net-" + Replaced(o.ip, '.', '-')
    else if o.mac.Some? then "net-" + Replaced(Lower(o.mac.value), ':', '-')
    else "net-" + o.source
  }

  function NewName(o: Observation): string {
    if o.hostname.Some? then o.hostname.value
    else if RealIp(o.ip) then "Host " + o.ip
    else if o.mac.Some? then "Switch (" + o.mac.value + ")"
    else "Network Switch"
  }

  // ---- The fold

  function VendorId(rules: Rules, mac: Option<string>): Option<string> {
    if mac.Some? then rules.vendorId(mac.value) else None
  }

  function VendorName(rules: Rules, mac: Option<string>): Option<string> {
    if mac.Some? then rules.vendorName(mac.value) else None
  }

  /** A catalogue product names the category only if the rules found none. */
  function WithProduct(rules: Rules, c: Category, d: Details): (Category, Details) {
    match rules.product(d.hostname.GetOr(""), d.vendor)
    case None => (c, d)
    case Some(p) =>
      (if c.kind == GENERIC_KIND then c.(kind := p.category, icon := Some(p.icon)) else c,
       d.(productId := Some(p.id), productName := Some(p.name)))
  }

  function Opened(rules: Rules, o: Observation): Device {
    var vendor := VendorName(rules, o.mac);
    var c := rules.classify(Traits(NewName(o), o.ip, o.mac, o.hostname, vendor, o.interface));
    var (category, details) := WithProduct(rules, c,
      Details(o.hostname, vendor, VendorId(rules, o.mac), None, None, None, None));
    Device(NewDeviceId(o), NewName(o), category, o.ip, o.mac, o.interface, details,
      if RealIp(o.ip) then ["ip"] else ["ethernet", "l2"], o.source, [o.source], o.activeHint)
  }

  /** Classification is repeated when a MAC or a hostname becomes known; it never falls back to the generic kind. */
  function Reclassified(rules: Rules, d: Device): Device {
    var c := rules.classify(Traits(d.displayName, d.ip, d.mac, d.details.hostname, d.details.vendor, d.interface));
    var kind := if c.kind != GENERIC_KIND || d.category.kind == GENERIC_KIND then c.kind else d.category.kind;
    var category := if c.title.Some? then c.(kind := kind) else d.category.(kind := kind);
    var (category', details) := WithProduct(rules, category, d.details);
    d.(category := category', details := details)
  }

  function WithMac(rules: Rules, d: Device, o: Observation): Device {
    if d.mac.None? && o.mac.Some? then
      Reclassified(rules, d.(mac := o.mac,
        details := d.details.(vendor := VendorName(rules, o.mac), vendorId := VendorId(rules, o.mac))))
    else d
  }

  function WithHostname(rules: Rules, d: Device, o: Observation): Device {
    if (d.details.hostname.None? || "Host " <= d.displayName) && o.hostname.Some? then
      Reclassified(rules, d.(displayName := o.hostname.value, details := d.details.(hostname := o.hostname)))
    else d
  }

  function JoinedActivity(a: Option<bool>, hint: Option<bool>): Option<bool> {
    if hint == Some(true) then Some(true)
    else if a.None? && hint.Some? then hint
    else a
  }

  function WithEvidence(d: Device, o: Observation): Device {
    d.(isActive := JoinedActivity(d.isActive, o.activeHint),
       sources := if o.source in d.sources then d.sources else d.sources + [o.source],
       capabilities := if o.source in d.capabilities then d.capabilities else d.capabilities + [o.source])
  }

  function Enriched(rules: Rules, entry: Device, o: Observation): Device {
    WithEvidence(WithHostname(rules, WithMac(rules, entry, o), o), o)
  }

  function Observed(rules: Rules, m: map<string, Device>, o: Observation): map<string, Device> {
    m[Key(o) := Enriched(rules, if Key(o) in m then m[Key(o)] else Opened(rules, o), o)]
  }

  type Entries = map<string, Device>

  function Fold(step: (Entries, Observation) -> Entries, obs: seq<Observation>): Entries {
    if obs == [] then map[] else step(Fold(step, obs[..|obs| - 1]), obs[|obs| - 1])
  }

  function Observing(rules: Rules): (Entries, Observation) -> Entries {
    (m, o) => Observed(rules, m, o)
  }

  function Folded(rules: Rules, obs: seq<Observation>): Entries {
    Fold(Observing(rules), obs)
  }

  /** What holds at the start and is kept by every step of a fold holds at its end. */
  lemma {:induction false} FoldInvariant(
    step: (Entries, Observation) -> Entries, inv: (seq<Observation>, Entries) -> bool, obs: seq<Observation>)
    requires inv([], map[])
    requires forall seen, m, o :: inv(seen, m) ==> inv(seen + [o], step(m, o))
    ensures inv(obs, Fold(step, obs))
  {
    if obs != [] {
      FoldInvariant(step, inv, obs[..|obs| - 1]);
      assert obs == obs[..|obs| - 1] + [obs[|obs| - 1]];
    }
  }

  // ---- The pass for VPN peers

  predicate IsGateway(d: Device) {
    EndsWith(d.ip, ".1") || d.details.hostname == Some("fritz.box") || d.displayName == "fritz.box"
  }

  /** The MAC of the first gateway in the list. */
  function GatewayMac(devs: seq<Device>): Option<string> {
    if devs == [] then None
    else if IsGateway(devs[0]) then devs[0].mac
    else GatewayMac(devs[1..])
  }

  predicate IsNamedPeer(d: Device) {
    d.ip == "192.168.178.202" || d.details.hostname == Some("iphonestephan")
    || Contains(Lower(d.displayName), "iphonestephan")
  }

  function Finished(d: Device, gateway: Option<string>): Device {
    if (gateway.Some? && d.mac == gateway && !IsGateway(d)) || IsNamedPeer(d) then
      var name :=
        if IsNamedPeer(d) then "iPhone Stephan (WireGuard VPN)"
        else if d.details.hostname.Some? then
          if Contains(Lower(d.details.hostname.value), "vpn") then d.displayName else d.details.hostname.value + " (VPN)"
        else "VPN Peer (" + d.ip + ")";
      d.(displayName := name, interface := "vpn",
         category := Category("vpn", Some("VPN & Virtual Devices"), Some("\U{1F6E1}\U{FE0F}"), Some("vpn_connection")),
         details := d.details.(
           hostname := if IsNamedPeer(d) then Some("iphonestephan") else d.details.hostname,
           vendor := Some("WireGuard / FRITZ!Box VPN"), vendorId := Some("wireguard"),
           productId := Some("wireguard_vpn_peer"), productName := Some("WireGuard VPN Virtual Peer")))
    else d
  }

  // ---- The order of the result

  /** Addresses first, by number; the rest by name. */
  predicate InOrder(rules: Rules, a: Device, b: Device) {
    match (rules.address(a.ip), rules.address(b.ip))
    case (Some(x), Some(y)) => x <= y
    case (Some(_), None) => true
    case (None, Some(_)) => false
    case (None, None) => NotAfter(a.displayName, b.displayName)
  }

  ghost predicate Sorted(rules: Rules, devs: seq<Device>) {
    forall i, j :: 0 <= i < j < |devs| ==> InOrder(rules, devs[i], devs[j])
  }

  /** Smaller addresses come first, then what has no address, by name: a prefix first, else the smaller where they differ. */
  ghost predicate Listable(rules: Rules, devs: seq<Device>) {
    forall i, j :: 0 <= i < j < |devs| ==>
      && var a, b, s, t := rules.address(devs[i].ip), rules.address(devs[j].ip), devs[i].displayName, devs[j].displayName;
      && (b.Some? ==> a.Some? && a.value <= b.value)
      && (a.None? && b.None? ==> s <= t || exists n :: DifferAt(s, t, n) && s[n] < t[n])
  }

  lemma SortedMeans(rules: Rules, devs: seq<Device>)
    ensures Sorted(rules, devs) <==> Listable(rules, devs)
  {
    forall i, j | 0 <= i < j < |devs| {
      NotAfterMeans(devs[i].displayName, devs[j].displayName);
    }
  }

  function Inserted(rules: Rules, d: Device, devs: seq<Device>): seq<Device> {
    if devs == [] || InOrder(rules, d, devs[0]) then [d] + devs
    else [devs[0]] + Inserted(rules, d, devs[1..])
  }

  /** Insertion sort stands in for the library's sort. */
  function SortedDevices(rules: Rules, devs: seq<Device>): seq<Device> {
    if devs == [] then [] else Inserted(rules, devs[0], SortedDevices(rules, devs[1..]))
  }

  lemma InOrderIsTotal(rules: Rules, a: Device, b: Device, c: Device)
    ensures InOrder(rules, a, b) || InOrder(rules, b, a)
    ensures InOrder(rules, a, b) && InOrder(rules, b, c) ==> InOrder(rules, a, c)
  {
    NotAfterIsTotal(a.displayName, b.displayName);
    if NotAfter(a.displayName, b.displayName) && NotAfter(b.displayName, c.displayName) {
      NotAfterIsTransitive(a.displayName, b.displayName, c.displayName);
    }
  }

  lemma {:induction false} InsertedIsSorted(rules: Rules, d: Device, devs: seq<Device>)
    requires Sorted(rules, devs)
    ensures Sorted(rules, Inserted(rules, d, devs))
    ensures multiset(Inserted(rules, d, devs)) == multiset{d} + multiset(devs)
  {
    if devs == [] {
    } else if InOrder(rules, d, devs[0]) {
      forall j | 0 <= j < |devs| ensures InOrder(rules, d, devs[j]) {
        InOrderIsTotal(rules, d, devs[0], devs[j]);
      }
    } else {
      InsertedIsSorted(rules, d, devs[1..]);
      InOrderIsTotal(rules, d, devs[0], d);
      assert devs == [devs[0]] + devs[1..];
      var rest := Inserted(rules, d, devs[1..]);
      forall j | 0 <= j < |rest| ensures InOrder(rules, devs[0], rest[j]) {
        assert rest[j] in multiset(rest);
        assert rest[j] == d || rest[j] in devs[1..];
      }
    }
  }

  lemma {:induction false} SortSorts(rules: Rules, devs: seq<Device>)
    ensures Sorted(rules, SortedDevices(rules, devs))
    ensures multiset(SortedDevices(rules, devs)) == multiset(devs)
  {
    if devs != [] {
      SortSorts(rules, devs[1..]);
      InsertedIsSorted(rules, devs[0], SortedDevices(rules, devs[1..]));
      assert devs == [devs[0]] + devs[1..];
    }
  }

  // ---- The whole

  /** `out` is a possible result: the folded devices in some order of the map, finished and sorted. */
  ghost predicate Aggregated(rules: Rules, obs: seq<Observation>, out: seq<Device>) {
    exists order :: AggregatedVia(rules, obs, order, out)
  }

  ghost predicate AggregatedVia(rules: Rules, obs: seq<Observation>, order: seq<string>, out: seq<Device>) {
    && NoDuplicates(order) && Elements(order) == Folded(rules, obs).Keys
    && out == SortedDevices(rules, FinishedAll(Listed(Folded(rules, obs), order)))
  }

  function Listed(m: map<string, Device>, order: seq<string>): (devs: seq<Device>)
    requires Elements(order) <= m.Keys
    ensures |devs| == |order|
  {
    seq(|order|, i requires 0 <= i < |order| => assert order[i] in Elements(order); m[order[i]])
  }

  function FinishedAll(devs: seq<Device>): (r: seq<Device>)
    ensures |r| == |devs|
  {
    seq(|devs|, i requires 0 <= i < |devs| => Finished(devs[i], GatewayMac(devs)))
  }

  method AggregateAndClassify(rules: Rules, observations: seq<Observation>) returns (devices: seq<Device>)
    ensures Aggregated(rules, observations, devices)
  {
    var byKey: map<string, Device> := map[];
    assert observations[..0] == [];
    for i := 0 to |observations|
      invariant byKey == Folded(rules, observations[..i])
    {
      assert observations[..i + 1][..i] == observations[..i];
      byKey := Observed(rules, byKey, observations[i]);
    }
    assert observations[..|observations|] == observations;

    ghost var order;
    devices, order := ListValues(byKey);
    ghost var listed := devices;
    var gateway := GatewayMac(devices);
    for i := 0 to |devices|
      invariant |devices| == |listed|
      invariant forall j :: 0 <= j < |listed| ==> devices[j] == if j < i then Finished(listed[j], gateway) else listed[j]
    {
      devices := devices[i := Finished(devices[i], gateway)];
    }
    assert devices == FinishedAll(listed);
    devices := SortedDevices(rules, devices);
    assert AggregatedVia(rules, observations, order, devices);
  }

  /** The values of the map, in whatever order it yields them. */
  method ListValues(byKey: map<string, Device>) returns (devices: seq<Device>, ghost order: seq<string>)
    ensures NoDuplicates(order) && Elements(order) == byKey.Keys && devices == Listed(byKey, order)
  {
    var pending := byKey.Keys;
    order, devices := [], [];
    while pending != {}
      invariant NoDuplicates(order) && Elements(order) <= byKey.Keys && pending == byKey.Keys - Elements(order)
      invariant devices == Listed(byKey, order)
    {
      var k :| k in pending;
      AppendOne(order, k);
      assert forall j :: 0 <= j < |order| ==> order[j] in Elements(order);
      devices := devices + [byKey[k]];
      pending := pending - {k};
      order := order + [k];
    }
    assert Elements(order) == byKey.Keys by {
      assert forall k :: k in byKey.Keys ==> k !in byKey.Keys - Elements(order);
    }
  }

  // ---- Facts about the fold

  /** Every entry is accounted for by the observations of its key. */
  ghost predicate Accounts(obs: seq<Observation>, k: string, d: Device) {
    && Elements(d.sources) == SourcesOf(obs, k)
    && NoDuplicates(d.sources)
    && d.isActive == ActivityOf(obs, k)
    && "net-" <= d.deviceId
    && (RealIp(d.ip) ==> k == d.ip)
    && FirstIp(obs, k) == Some(d.ip)
    && d.mac == FirstMac(obs, k)
  }

  /** The IP of the first observation with the key. */
  function FirstIp(obs: seq<Observation>, k: string): Option<string> {
    if obs == [] then None
    else
      var o := obs[|obs| - 1];
      var before := FirstIp(obs[..|obs| - 1], k);
      if before.None? && Key(o) == k then Some(o.ip) else before
  }

  /** The first MAC that an observation with the key carries. */
  function FirstMac(obs: seq<Observation>, k: string): Option<string> {
    if obs == [] then None
    else
      var o := obs[|obs| - 1];
      var before := FirstMac(obs[..|obs| - 1], k);
      if before.None? && Key(o) == k then o.mac else before
  }

  lemma FirstsNext(obs: seq<Observation>, o: Observation, k: string)
    ensures FirstIp(obs + [o], k) == if FirstIp(obs, k).None? && Key(o) == k then Some(o.ip) else FirstIp(obs, k)
    ensures FirstMac(obs + [o], k) == if FirstMac(obs, k).None? && Key(o) == k then o.mac else FirstMac(obs, k)
  {
    assert (obs + [o])[..|obs|] == obs;
  }

  lemma {:induction false} FirstsOfNew(obs: seq<Observation>, k: string)
    requires forall x :: x in obs ==> Key(x) != k
    ensures FirstIp(obs, k) == None && FirstMac(obs, k) == None
  {
    if obs != [] {
      assert obs[|obs| - 1] in obs && forall x :: x in obs[..|obs| - 1] ==> x in obs;
      FirstsOfNew(obs[..|obs| - 1], k);
    }
  }

  function SourcesOf(obs: seq<Observation>, k: string): set<string> {
    set o | o in obs && Key(o) == k :: o.source
  }

  /** The join of the hints in none < false < true. */
  function ActivityOf(obs: seq<Observation>, k: string): Option<bool> {
    if Hinted(obs, k, true) then Some(true)
    else if Hinted(obs, k, false) then Some(false)
    else None
  }

  predicate Hinted(obs: seq<Observation>, k: string, active: bool) {
    exists o :: o in obs && Key(o) == k && o.activeHint == Some(active)
  }

  lemma HintsJoin(obs: seq<Observation>, o: Observation, k: string, active: bool)
    ensures Hinted(obs + [o], k, active) <==> Hinted(obs, k, active) || (Key(o) == k && o.activeHint == Some(active))
  {
    assert o in obs + [o];
    assert forall x :: x in obs + [o] <==> x in obs || x == o;
    if Hinted(obs, k, active) {
      var x :| x in obs && Key(x) == k && x.activeHint == Some(active);
      assert x in obs + [o];
    }
  }

  lemma EvidenceJoins(obs: seq<Observation>, o: Observation, k: string)
    requires Key(o) == k
    ensures SourcesOf(obs + [o], k) == SourcesOf(obs, k) + {o.source}
    ensures ActivityOf(obs + [o], k) == JoinedActivity(ActivityOf(obs, k), o.activeHint)
  {
    HintsJoin(obs, o, k, true);
    HintsJoin(obs, o, k, false);
    match o.activeHint {
      case None =>
      case Some(b) => assert b == true || b == false;
    }
    assert o in obs + [o];
    assert forall x :: x in obs + [o] <==> x in obs || x == o;
  }

  lemma EvidenceOfOthers(obs: seq<Observation>, o: Observation, k: string)
    requires Key(o) != k
    ensures SourcesOf(obs + [o], k) == SourcesOf(obs, k)
    ensures ActivityOf(obs + [o], k) == ActivityOf(obs, k)
  {
    HintsJoin(obs, o, k, true);
    HintsJoin(obs, o, k, false);
    assert forall x :: x in obs + [o] <==> x in obs || x == o;
  }

  /** The steps of the fold that classify keep a device's identity and evidence. */
  lemma ClassifyingKeepsEvidence(rules: Rules, d: Device, o: Observation)
    ensures var d' := WithHostname(rules, WithMac(rules, d, o), o);
      && d'.deviceId == d.deviceId && d'.ip == d.ip && d'.sources == d.sources && d'.isActive == d.isActive
      && d'.mac == (if d.mac.None? then o.mac else d.mac)
  {
  }

  lemma EntryAccounts(rules: Rules, obs: seq<Observation>, o: Observation, entry: Device)
    requires Accounts(obs, Key(o), entry)
    ensures Accounts(obs + [o], Key(o), Enriched(rules, entry, o))
  {
    ClassifyingKeepsEvidence(rules, entry, o);
    EvidenceJoins(obs, o, Key(o));
    AppendOne(entry.sources, o.source);
    FirstsNext(obs, o, Key(o));
  }

  lemma NewEntryAccounts(rules: Rules, obs: seq<Observation>, o: Observation)
    requires forall x :: x in obs ==> Key(x) != Key(o)
    ensures Accounts(obs + [o], Key(o), Enriched(rules, Opened(rules, o), o))
  {
    var d := Opened(rules, o);
    ClassifyingKeepsEvidence(rules, d, o);
    EvidenceJoins(obs, o, Key(o));
    assert SourcesOf(obs, Key(o)) == {} && ActivityOf(obs, Key(o)) == None;
    assert Elements([o.source]) == {o.source};
    FirstsOfNew(obs, Key(o));
    FirstsNext(obs, o, Key(o));
  }

  lemma OthersAccount(obs: seq<Observation>, o: Observation, k: string, d: Device)
    requires Key(o) != k && Accounts(obs, k, d)
    ensures Accounts(obs + [o], k, d)
  {
    EvidenceOfOthers(obs, o, k);
    FirstsNext(obs, o, k);
  }

  lemma ObservedAccounts(rules: Rules, obs: seq<Observation>, o: Observation, m: map<string, Device>, k: string)
    requires m.Keys == KeysOf(obs) && k in Observed(rules, m, o)
    requires k in m ==> Accounts(obs, k, m[k])
    ensures Accounts(obs + [o], k, Observed(rules, m, o)[k])
  {
    if k != Key(o) {
      OthersAccount(obs, o, k, m[k]);
    } else if k in m {
      EntryAccounts(rules, obs, o, m[k]);
    } else {
      assert forall x :: x in obs ==> Key(x) in KeysOf(obs);
      NewEntryAccounts(rules, obs, o);
    }
  }

  function KeysOf(obs: seq<Observation>): set<string> {
    set o | o in obs :: Key(o)
  }

  lemma KeysOfNext(obs: seq<Observation>, o: Observation)
    ensures KeysOf(obs + [o]) == KeysOf(obs) + {Key(o)}
  {
    assert o in obs + [o];
    assert forall x :: x in obs + [o] <==> x in obs || x == o;
  }

  /** One entry for each key, accounting for the observations of its key. */
  ghost predicate AllAccounted(obs: seq<Observation>, m: Entries) {
    m.Keys == KeysOf(obs) && forall k :: k in m ==> Accounts(obs, k, m[k])
  }

  lemma ObservingAccounts(rules: Rules, obs: seq<Observation>, m: Entries, o: Observation)
    requires AllAccounted(obs, m)
    ensures AllAccounted(obs + [o], Observed(rules, m, o))
  {
    KeysOfNext(obs, o);
    forall k | k in Observed(rules, m, o) ensures Accounts(obs + [o], k, Observed(rules, m, o)[k]) {
      ObservedAccounts(rules, obs, o, m, k);
    }
  }

  /** The fold yields one entry for each key; its sources and activity are those of the observations with that key. */
  lemma FoldAccounts(rules: Rules, obs: seq<Observation>)
    ensures AllAccounted(obs, Folded(rules, obs))
  {
    var step := Observing(rules);
    var inv := (seen, m) => AllAccounted(seen, m);
    forall seen, m, o | inv(seen, m) ensures inv(seen + [o], step(m, o)) {
      ObservingAccounts(rules, seen, m, o);
    }
    FoldInvariant(step, inv, obs);
  }

  // ---- Main results

  lemma FinishingKeeps(d: Device, gateway: Option<string>)
    ensures var d' := Finished(d, gateway);
      d'.deviceId == d.deviceId && d'.ip == d.ip && d'.mac == d.mac && d'.sources == d.sources && d'.isActive == d.isActive
  {
  }

  /** The devices before sorting, one for each key in `order`. */
  lemma ListedAccounts(rules: Rules, obs: seq<Observation>, order: seq<string>, out: seq<Device>)
    requires AggregatedVia(rules, obs, order, out)
    ensures var devs := FinishedAll(Listed(Folded(rules, obs), order));
      && multiset(out) == multiset(devs) && |out| == |devs| == |order|
      && (forall i :: 0 <= i < |order| ==> Accounts(obs, order[i], devs[i]))
  {
    var listed := Listed(Folded(rules, obs), order);
    var devs := FinishedAll(listed);
    SortSorts(rules, devs);
    assert |multiset(out)| == |multiset(devs)|;
    FoldAccounts(rules, obs);
    forall i | 0 <= i < |order| ensures Accounts(obs, order[i], devs[i]) {
      assert order[i] in Elements(order);
      FinishingKeeps(listed[i], GatewayMac(listed));
    }
  }

  /**
   Aggregation yields exactly one device for each distinct key, sorted; a device accounts for the
   observations of its key.
   */
  lemma OneDevicePerKey(rules: Rules, obs: seq<Observation>, out: seq<Device>)
    requires Aggregated(rules, obs, out)
    ensures |out| == |KeysOf(obs)| && Listable(rules, out)
    ensures forall d :: d in out ==> exists k :: k in KeysOf(obs) && Accounts(obs, k, d)
    ensures forall k :: k in KeysOf(obs) ==> exists d :: d in out && Accounts(obs, k, d)
  {
    var order :| AggregatedVia(rules, obs, order, out);
    ListedAccounts(rules, obs, order, out);
    FoldAccounts(rules, obs);
    SortSorts(rules, FinishedAll(Listed(Folded(rules, obs), order)));
    SortedMeans(rules, out);
    ElementsCount(order);
    forall d | d in out ensures exists k :: k in KeysOf(obs) && Accounts(obs, k, d) {
      var k := KeyOfDevice(rules, obs, order, out, d);
    }
    forall k | k in KeysOf(obs) ensures exists d :: d in out && Accounts(obs, k, d) {
      var d := DeviceOfKey(rules, obs, order, out, k);
    }
  }

  lemma KeyOfDevice(rules: Rules, obs: seq<Observation>, order: seq<string>, out: seq<Device>, d: Device) returns (k: string)
    requires AggregatedVia(rules, obs, order, out) && d in out
    ensures k in KeysOf(obs) && Accounts(obs, k, d)
  {
    ListedAccounts(rules, obs, order, out);
    FoldAccounts(rules, obs);
    var devs := FinishedAll(Listed(Folded(rules, obs), order));
    assert d in multiset(out);
    var i :| 0 <= i < |devs| && devs[i] == d;
    k := order[i];
    assert k in Elements(order);
  }

  lemma DeviceOfKey(rules: Rules, obs: seq<Observation>, order: seq<string>, out: seq<Device>, k: string) returns (d: Device)
    requires AggregatedVia(rules, obs, order, out) && k in KeysOf(obs)
    ensures d in out && Accounts(obs, k, d)
  {
    ListedAccounts(rules, obs, order, out);
    FoldAccounts(rules, obs);
    var devs := FinishedAll(Listed(Folded(rules, obs), order));
    assert k in Elements(order);
    var i :| 0 <= i < |order| && order[i] == k;
    d := devs[i];
    assert d in multiset(devs);
  }

  /** Any two entries of the list are apart. */
  ghost predicate Pairwise(devs: seq<Device>, apart: (Device, Device) -> bool) {
    forall i, j :: 0 <= i < j < |devs| ==> apart(devs[i], devs[j])
  }

  ghost predicate FromAll(d: Device, devs: seq<Device>, apart: (Device, Device) -> bool) {
    forall i :: 0 <= i < |devs| ==> apart(d, devs[i])
  }

  ghost predicate Symmetric(apart: (Device, Device) -> bool) {
    forall d, e :: apart(d, e) == apart(e, d)
  }

  lemma PairwiseCons(d: Device, devs: seq<Device>, apart: (Device, Device) -> bool)
    ensures Pairwise([d] + devs, apart) <==> Pairwise(devs, apart) && FromAll(d, devs, apart)
  {
    var all := [d] + devs;
    assert forall i :: 0 <= i < |devs| ==> devs[i] == all[i + 1];
    if Pairwise(all, apart) {
      forall i | 0 <= i < |devs| ensures apart(d, devs[i]) {
        assert apart(all[0], all[i + 1]);
      }
    }
  }

  lemma {:induction false} InsertingKeepsPairs(
    rules: Rules, d: Device, devs: seq<Device>, apart: (Device, Device) -> bool)
    requires Symmetric(apart)
    ensures Pairwise(Inserted(rules, d, devs), apart) <==> Pairwise(devs, apart) && FromAll(d, devs, apart)
    ensures forall e :: FromAll(e, Inserted(rules, d, devs), apart) <==> FromAll(e, devs, apart) && apart(e, d)
  {
    if devs == [] || InOrder(rules, d, devs[0]) {
      PairwiseCons(d, devs, apart);
      FromAllCons(d, devs, apart);
    } else {
      var first, rest := devs[0], devs[1..];
      InsertingKeepsPairs(rules, d, rest, apart);
      assert devs == [first] + rest;
      PairwiseCons(first, rest, apart);
      FromAllCons(first, rest, apart);
      PairwiseCons(first, Inserted(rules, d, rest), apart);
      FromAllCons(first, Inserted(rules, d, rest), apart);
    }
  }

  lemma FromAllCons(d: Device, devs: seq<Device>, apart: (Device, Device) -> bool)
    ensures forall e :: FromAll(e, [d] + devs, apart) <==> FromAll(e, devs, apart) && apart(e, d)
  {
    forall e ensures FromAll(e, [d] + devs, apart) <==> FromAll(e, devs, apart) && apart(e, d) {
      var all := [d] + devs;
      assert forall i :: 0 <= i < |devs| ==> devs[i] == all[i + 1];
      if FromAll(e, all, apart) {
        assert apart(e, all[0]);
        forall i | 0 <= i < |devs| ensures apart(e, devs[i]) {
          assert apart(e, all[i + 1]);
        }
      }
    }
  }

  /** Sorting neither brings entries together nor takes them apart. */
  lemma {:induction false} SortingKeepsPairs(rules: Rules, devs: seq<Device>, apart: (Device, Device) -> bool)
    requires Symmetric(apart)
    ensures Pairwise(SortedDevices(rules, devs), apart) <==> Pairwise(devs, apart)
    ensures forall e :: FromAll(e, SortedDevices(rules, devs), apart) <==> FromAll(e, devs, apart)
  {
    if devs != [] {
      SortingKeepsPairs(rules, devs[1..], apart);
      InsertingKeepsPairs(rules, devs[0], SortedDevices(rules, devs[1..]), apart);
      assert devs == [devs[0]] + devs[1..];
      PairwiseCons(devs[0], devs[1..], apart);
      FromAllCons(devs[0], devs[1..], apart);
    }
  }

  /** No two devices share a real IP. */
  ghost predicate RealIpsUnshared(devs: seq<Device>) {
    forall i, j :: 0 <= i < j < |devs| && devs[i].ip == devs[j].ip ==> !RealIp(devs[i].ip)
  }

  lemma AggregatedIpsAreUnshared(rules: Rules, obs: seq<Observation>, out: seq<Device>)
    requires Aggregated(rules, obs, out)
    ensures RealIpsUnshared(out)
  {
    var order :| AggregatedVia(rules, obs, order, out);
    ListedAccounts(rules, obs, order, out);
    var devs := FinishedAll(Listed(Folded(rules, obs), order));
    var apart := (d: Device, e: Device) => d.ip == e.ip ==> !RealIp(d.ip);
    forall i, j | 0 <= i < j < |devs| ensures apart(devs[i], devs[j]) {
      assert order[i] != order[j];
    }
    SortingKeepsPairs(rules, devs, apart);
    forall i, j | 0 <= i < j < |out| && out[i].ip == out[j].ip ensures !RealIp(out[i].ip) {
      assert apart(out[i], out[j]);
    }
  }

  /** Permuting the observations changes neither the keys nor what the device of a key accounts for. */
  lemma OrderOfObservationsIsIrrelevant(rules: Rules, obs: seq<Observation>, obs': seq<Observation>, k: string)
    requires multiset(obs) == multiset(obs')
    ensures KeysOf(obs) == KeysOf(obs') == Folded(rules, obs).Keys == Folded(rules, obs').Keys
    ensures k in KeysOf(obs) ==>
      && Elements(Folded(rules, obs)[k].sources) == Elements(Folded(rules, obs')[k].sources)
      && Folded(rules, obs)[k].isActive == Folded(rules, obs')[k].isActive
  {
    FoldAccounts(rules, obs);
    FoldAccounts(rules, obs');
    SameObservations(obs, obs', k);
  }

  lemma SameObservations(obs: seq<Observation>, obs': seq<Observation>, k: string)
    requires multiset(obs) == multiset(obs')
    ensures KeysOf(obs) == KeysOf(obs') && SourcesOf(obs, k) == SourcesOf(obs', k) && ActivityOf(obs, k) == ActivityOf(obs', k)
  {
    forall o ensures o in obs <==> o in obs' {
      assert o in multiset(obs) <==> o in multiset(obs');
    }
  }

  const NOWHERE := "0.0.0.0"

  /** The MAC that stands for the key is valid and no id. */
  predicate GoodMacOf(obs: seq<Observation>, k: string) {
    FirstMac(obs, k).Some? ==> ValidMac(FirstMac(obs, k)) && MacKey(Norm(FirstMac(obs, k).value))
  }

  /** At most one key was first observed at the address 0.0.0.0. */
  ghost predicate OneNowhere(obs: seq<Observation>) {
    forall j, k :: j in KeysOf(obs) && k in KeysOf(obs) && FirstIp(obs, j) == FirstIp(obs, k) == Some(NOWHERE) ==> j == k
  }

  /**
   What the history demands of a sweep is what aggregation delivers if and only if, for every key, the first MAC
   observed is valid and no id, and at most one key was first observed at the address 0.0.0.0.
   */
  lemma AggregationFeedsTheHistory(rules: Rules, obs: seq<Observation>, out: seq<Device>)
    requires Aggregated(rules, obs, out)
    ensures GoodSweep(out) <==> (forall k :: k in KeysOf(obs) ==> GoodMacOf(obs, k)) && OneNowhere(obs)
  {
    var order :| AggregatedVia(rules, obs, order, out);
    var apart := (d: Device, e: Device) => d.ip == e.ip ==> d.ip == "";
    SortingKeepsPairs(rules, FinishedAll(Listed(Folded(rules, obs), order)), apart);
    GoodDevicesIfGoodMacs(rules, obs, order, out);
    ListedAccounts(rules, obs, order, out);
    FoldAccounts(rules, obs);
    UnsharedIfOneNowhere(obs, order, FinishedAll(Listed(Folded(rules, obs), order)), apart);
    assert GoodSweep(out) <==> (forall d :: d in out ==> GoodDevice(d)) && Pairwise(out, apart);
  }

  lemma GoodDevicesIfGoodMacs(rules: Rules, obs: seq<Observation>, order: seq<string>, out: seq<Device>)
    requires AggregatedVia(rules, obs, order, out)
    ensures (forall d :: d in out ==> GoodDevice(d)) <==> (forall k :: k in KeysOf(obs) ==> GoodMacOf(obs, k))
  {
    if forall d :: d in out ==> GoodDevice(d) {
      forall k | k in KeysOf(obs) ensures GoodMacOf(obs, k) {
        var d := DeviceOfKey(rules, obs, order, out, k);
      }
    }
    if forall k :: k in KeysOf(obs) ==> GoodMacOf(obs, k) {
      forall d | d in out ensures GoodDevice(d) {
        var k := KeyOfDevice(rules, obs, order, out, d);
      }
    }
  }

  lemma UnsharedIfOneNowhere(
    obs: seq<Observation>, order: seq<string>, devs: seq<Device>, apart: (Device, Device) -> bool)
    requires NoDuplicates(order) && Elements(order) == KeysOf(obs) && |devs| == |order|
    requires forall i :: 0 <= i < |order| ==> Accounts(obs, order[i], devs[i])
    requires forall d, e :: apart(d, e) <==> (d.ip == e.ip ==> d.ip == "")
    ensures Pairwise(devs, apart) <==> OneNowhere(obs)
  {
    if Pairwise(devs, apart) {
      forall j, k | j in KeysOf(obs) && k in KeysOf(obs) && FirstIp(obs, j) == FirstIp(obs, k) == Some(NOWHERE) ensures j == k {
        var x := PositionIn(order, j);
        var y := PositionIn(order, k);
        var before, after := apart(devs[x], devs[y]), apart(devs[y], devs[x]);
      }
    }
    if OneNowhere(obs) {
      forall i, j | 0 <= i < j < |devs| ensures apart(devs[i], devs[j]) {
        assert Accounts(obs, order[i], devs[i]) && Accounts(obs, order[j], devs[j]);
        DistinctKeys(order, i, j);
      }
    }
  }

  lemma PositionIn(order: seq<string>, k: string) returns (i: nat)
    requires k in Elements(order)
    ensures i < |order| && order[i] == k
  {
    i :| 0 <= i < |order| && order[i] == k;
  }

  lemma DistinctKeys(order: seq<string>, i: nat, j: nat)
    requires NoDuplicates(order) && i < j < |order|
    ensures order[i] != order[j] && order[i] in Elements(order) && order[j] in Elements(order)
  {
  }

  /** Two keys whose first MACs are the same in any spelling. */
  predicate ShareMac(obs: seq<Observation>, j: string, k: string) {
    FirstMac(obs, j).Some? && FirstMac(obs, k).Some? && Norm(FirstMac(obs, j).value) == Norm(FirstMac(obs, k).value)
  }

  /** Two keys with the same first IP have none, where aggregation meets what the history demands. */
  lemma SharedFirstIpIsNone(rules: Rules, obs: seq<Observation>, out: seq<Device>, j: string, k: string)
    requires Aggregated(rules, obs, out) && GoodSweep(out)
    requires j in KeysOf(obs) && k in KeysOf(obs) && FirstIp(obs, j) == FirstIp(obs, k) && j != k
    ensures FirstIp(obs, j) == Some("")
  {
    var order :| AggregatedVia(rules, obs, order, out);
    AggregationFeedsTheHistory(rules, obs, out);
    var d := DeviceOfKey(rules, obs, order, out, j);
    var e := DeviceOfKey(rules, obs, order, out, k);
  }

  /**
   From observations to the history: every aggregated device with a MAC keeps a record with its own IP if and only
   if any two keys that share their first MAC have no IP.
   */
  lemma EveryDeviceKeepsItsRecordExactly(
    rules: Rules, obs: seq<Observation>, out: seq<Device>, before: Store, now: Time, after: Store)
    requires Aggregated(rules, obs, out) && GoodSweep(out)
    requires Canonical(before) && Tidy(before) && Reconciled(before, out, now, after)
    ensures (forall d :: d in out && d.mac.Some? ==> KeepsOwnRecord(after, d)) <==>
      (forall j, k :: j in KeysOf(obs) && k in KeysOf(obs) && j != k && ShareMac(obs, j, k) ==>
         FirstIp(obs, j) == FirstIp(obs, k) == Some(""))
  {
    var order :| AggregatedVia(rules, obs, order, out);
    AllKeepTheirRecordsExactly(before, out, now, after);
    SharingIsSharing(rules, obs, order, out);
    forall j, k | j in KeysOf(obs) && k in KeysOf(obs) && j != k && FirstIp(obs, j) == FirstIp(obs, k)
      ensures FirstIp(obs, j) == Some("")
    {
      SharedFirstIpIsNone(rules, obs, out, j, k);
    }
  }

  lemma SharingIsSharing(rules: Rules, obs: seq<Observation>, order: seq<string>, out: seq<Device>)
    requires AggregatedVia(rules, obs, order, out)
    ensures (forall d, e :: d in out && e in out && SameMacs(d, e) ==> d.ip == e.ip) <==>
      (forall j, k :: j in KeysOf(obs) && k in KeysOf(obs) && ShareMac(obs, j, k) ==> FirstIp(obs, j) == FirstIp(obs, k))
  {
    if forall d, e :: d in out && e in out && SameMacs(d, e) ==> d.ip == e.ip {
      forall j, k | j in KeysOf(obs) && k in KeysOf(obs) && ShareMac(obs, j, k) ensures FirstIp(obs, j) == FirstIp(obs, k) {
        var d := DeviceOfKey(rules, obs, order, out, j);
        var e := DeviceOfKey(rules, obs, order, out, k);
        assert SameMacs(d, e);
      }
    }
    if forall j, k :: j in KeysOf(obs) && k in KeysOf(obs) && ShareMac(obs, j, k) ==> FirstIp(obs, j) == FirstIp(obs, k) {
      forall d, e | d in out && e in out && SameMacs(d, e) ensures d.ip == e.ip {
        var j := KeyOfDevice(rules, obs, order, out, d);
        var k := KeyOfDevice(rules, obs, order, out, e);
        assert ShareMac(obs, j, k);
      }
    }
  }
}
