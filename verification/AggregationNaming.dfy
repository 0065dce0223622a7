/** How aggregation names and classifies: which of the observed hostnames, MACs and kinds a device ends with. */
module AggregationNaming {
  import opened Options
  import opened Text
  import opened Sequences
  import opened HistoryRecords
  import opened HistorySweep
  import opened Aggregation

  // ---- What is taken for one device

  predicate HasAddress(o: Observation) {
    o.ip != "" && o.ip != "0.0.0.0"
  }

  /** Whether two observations are of one device: by address, without any by MAC in any case, without one by source. */
  lemma OneKeyExactly(a: Observation, b: Observation)
    ensures HasAddress(a) && HasAddress(b) ==> (Key(a) == Key(b) <==> a.ip == b.ip)
    ensures !HasAddress(a) && !HasAddress(b) ==>
      (Key(a) == Key(b) <==>
        match (a.mac, b.mac)
        case (Some(m), Some(n)) => Lower(m) == Lower(n)
        case (None, None) => a.source == b.source
        case _ => false)
    ensures HasAddress(a) && !HasAddress(b) && Key(a) == Key(b) ==> "mac:" <= a.ip || "raw:" <= a.ip
  {
    var m, n := Lower(a.mac.GetOr("")), Lower(b.mac.GetOr(""));
    assert ("mac:" + m)[4..] == m && ("mac:" + n)[4..] == n;
    assert ("raw:" + a.source)[4..] == a.source && ("raw:" + b.source)[4..] == b.source;
    assert ("mac:" + m)[0] != ("raw:" + b.source)[0] && ("mac:" + n)[0] != ("raw:" + a.source)[0];
  }

  // ---- What the observations of a key say

  /** The first observation with the key. */
  function FirstOf(obs: seq<Observation>, k: string): Option<Observation> {
    if obs == [] then None
    else
      var before, o := FirstOf(obs[..|obs| - 1], k), obs[|obs| - 1];
      if before.None? && Key(o) == k then Some(o) else before
  }

  /** The first hostname observed that does not start with "Host ". */
  function FirstProperName(obs: seq<Observation>, k: string): Option<string> {
    if obs == [] then None
    else
      var before, o := FirstProperName(obs[..|obs| - 1], k), obs[|obs| - 1];
      if before.None? && Key(o) == k && o.hostname.Some? && !("Host " <= o.hostname.value) then o.hostname else before
  }

  /** The last hostname observed. */
  function LastName(obs: seq<Observation>, k: string): Option<string> {
    if obs == [] then None
    else
      var o := obs[|obs| - 1];
      if Key(o) == k && o.hostname.Some? then o.hostname else LastName(obs[..|obs| - 1], k)
  }

  function HostnameOf(obs: seq<Observation>, k: string): Option<string> {
    if FirstProperName(obs, k).Some? then FirstProperName(obs, k) else LastName(obs, k)
  }

  /** The name of a device whose hostname is not known, told from its first observation. */
  function UnnamedAs(o: Observation): string {
    if o.ip != "" && o.ip != "0.0.0.0" then "Host " + o.ip
    else if o.mac.Some? then "Switch (" + o.mac.value + ")"
    else "Network Switch"
  }

  function IdFor(o: Observation): string {
    if o.ip != "" && o.ip != "0.0.0.0" then "net-" + Replaced(o.ip, '.', '-')
    else if o.mac.Some? then "net-" + Replaced(Lower(o.mac.value), ':', '-')
    else "net-" + o.source
  }

  /** Hostname, name, vendor, id and interface of a device, told from the observations of its key. */
  ghost predicate Named(rules: Rules, obs: seq<Observation>, k: string, d: Device) {
    && var hostname, mac, first := HostnameOf(obs, k), FirstMac(obs, k), FirstOf(obs, k);
    && first.Some?
    && d.details.hostname == hostname
    && d.displayName == (if hostname.Some? then hostname.value else UnnamedAs(first.value))
    && d.mac == mac
    && d.details.vendor == (if mac.Some? then rules.vendorName(mac.value) else None)
    && d.details.vendorId == (if mac.Some? then rules.vendorId(mac.value) else None)
    && d.deviceId == IdFor(first.value) && d.interface == first.value.interface && d.source == first.value.source
  }

  /** Its capabilities are those of its link and every source that observed it. */
  ghost predicate Capable(obs: seq<Observation>, k: string, d: Device) {
    && var first := FirstOf(obs, k);
    && first.Some?
    && var own := if HasAddress(first.value) then ["ip"] else ["ethernet", "l2"];
    && own <= d.capabilities && Elements(d.capabilities) == Elements(own) + SourcesOf(obs, k)
    && NoDuplicates(d.capabilities)
  }

  // ---- Each step of the fold

  lemma NamesNext(obs: seq<Observation>, o: Observation, k: string)
    ensures FirstOf(obs + [o], k) == if FirstOf(obs, k).None? && Key(o) == k then Some(o) else FirstOf(obs, k)
    ensures LastName(obs + [o], k) == if Key(o) == k && o.hostname.Some? then o.hostname else LastName(obs, k)
    ensures FirstProperName(obs + [o], k) ==
      if FirstProperName(obs, k).None? && Key(o) == k && o.hostname.Some? && !("Host " <= o.hostname.value) then o.hostname
      else FirstProperName(obs, k)
  {
    assert (obs + [o])[..|obs|] == obs;
  }

  lemma {:induction false} NothingOfNew(obs: seq<Observation>, k: string)
    requires forall x :: x in obs ==> Key(x) != k
    ensures FirstOf(obs, k) == None && FirstProperName(obs, k) == None && LastName(obs, k) == None
  {
    if obs != [] {
      assert obs[|obs| - 1] in obs && forall x :: x in obs[..|obs| - 1] ==> x in obs;
      NothingOfNew(obs[..|obs| - 1], k);
    }
  }

  /** A proper name is the first of those observed, any other name the last. */
  lemma {:induction false} HostnameIsObserved(obs: seq<Observation>, k: string)
    ensures FirstProperName(obs, k).Some? ==> !("Host " <= FirstProperName(obs, k).value)
    ensures FirstProperName(obs, k).None? && LastName(obs, k).Some? ==> "Host " <= LastName(obs, k).value
  {
    if obs != [] {
      HostnameIsObserved(obs[..|obs| - 1], k);
    }
  }

  /** What one more observation of its key does to a device, but for classification and evidence. */
  lemma EnrichedNames(rules: Rules, d: Device, o: Observation)
    ensures var d' := Enriched(rules, d, o);
      var taken := o.hostname.Some? && (d.details.hostname.None? || "Host " <= d.displayName);
      && d'.details.hostname == (if taken then o.hostname else d.details.hostname)
      && d'.displayName == (if taken then o.hostname.value else d.displayName)
      && d'.deviceId == d.deviceId && d'.interface == d.interface && d'.source == d.source
  {
  }

  lemma EnrichedMac(rules: Rules, d: Device, o: Observation)
    ensures var d' := Enriched(rules, d, o);
      var found := d.mac.None? && o.mac.Some?;
      && d'.mac == (if found then o.mac else d.mac)
      && d'.details.vendor == (if found then rules.vendorName(o.mac.value) else d.details.vendor)
      && d'.details.vendorId == (if found then rules.vendorId(o.mac.value) else d.details.vendorId)
  {
  }

  lemma EnrichedIsNamed(rules: Rules, obs: seq<Observation>, o: Observation, d: Device)
    requires Named(rules, obs, Key(o), d)
    ensures Named(rules, obs + [o], Key(o), Enriched(rules, d, o))
  {
    EnrichedNames(rules, d, o);
    EnrichedMac(rules, d, o);
    NamesNext(obs, o, Key(o));
    FirstsNext(obs, o, Key(o));
    HostnameIsObserved(obs, Key(o));
  }

  lemma OpenedIsNamed(rules: Rules, obs: seq<Observation>, o: Observation)
    requires forall x :: x in obs ==> Key(x) != Key(o)
    ensures Named(rules, obs + [o], Key(o), Enriched(rules, Opened(rules, o), o))
  {
    NothingOfNew(obs, Key(o));
    FirstsOfNew(obs, Key(o));
    NamesNext(obs, o, Key(o));
    FirstsNext(obs, o, Key(o));
  }

  lemma EnrichedCapabilities(rules: Rules, d: Device, o: Observation)
    ensures d.capabilities <= Enriched(rules, d, o).capabilities
    ensures NoDuplicates(d.capabilities) ==> NoDuplicates(Enriched(rules, d, o).capabilities)
    ensures Elements(Enriched(rules, d, o).capabilities) == Elements(d.capabilities) + {o.source}
  {
    var cs := WithHostname(rules, WithMac(rules, d, o), o).capabilities;
    assert cs == d.capabilities;
    AppendOne(cs, o.source);
  }

  lemma EnrichedIsCapable(rules: Rules, obs: seq<Observation>, o: Observation, d: Device)
    requires Capable(obs, Key(o), d)
    ensures Capable(obs + [o], Key(o), Enriched(rules, d, o))
  {
    NamesNext(obs, o, Key(o));
    EvidenceJoins(obs, o, Key(o));
    EnrichedCapabilities(rules, d, o);
  }

  lemma OpenedIsCapable(rules: Rules, obs: seq<Observation>, o: Observation)
    requires forall x :: x in obs ==> Key(x) != Key(o)
    ensures Capable(obs + [o], Key(o), Enriched(rules, Opened(rules, o), o))
  {
    NothingOfNew(obs, Key(o));
    NamesNext(obs, o, Key(o));
    EvidenceJoins(obs, o, Key(o));
    assert SourcesOf(obs, Key(o)) == {};
    EnrichedCapabilities(rules, Opened(rules, o), o);
  }

  ghost predicate AllNamed(rules: Rules, obs: seq<Observation>, m: Entries) {
    m.Keys == KeysOf(obs) && forall k :: k in m ==> Named(rules, obs, k, m[k]) && Capable(obs, k, m[k])
  }

  lemma ObservingNames(rules: Rules, obs: seq<Observation>, m: Entries, o: Observation)
    requires AllNamed(rules, obs, m)
    ensures AllNamed(rules, obs + [o], Observed(rules, m, o))
  {
    KeysOfNext(obs, o);
    forall k | k in Observed(rules, m, o)
      ensures Named(rules, obs + [o], k, Observed(rules, m, o)[k]) && Capable(obs + [o], k, Observed(rules, m, o)[k])
    {
      if k != Key(o) {
        OthersStayNamed(rules, obs, o, k, m[k]);
      } else if k in m {
        EnrichedIsNamed(rules, obs, o, m[k]);
        EnrichedIsCapable(rules, obs, o, m[k]);
      } else {
        assert forall x :: x in obs ==> Key(x) in KeysOf(obs);
        OpenedIsNamed(rules, obs, o);
        OpenedIsCapable(rules, obs, o);
      }
    }
  }

  lemma OthersStayNamed(rules: Rules, obs: seq<Observation>, o: Observation, k: string, d: Device)
    requires k != Key(o) && Named(rules, obs, k, d) && Capable(obs, k, d)
    ensures Named(rules, obs + [o], k, d) && Capable(obs + [o], k, d)
  {
    NamesNext(obs, o, k);
    FirstsNext(obs, o, k);
    EvidenceOfOthers(obs, o, k);
  }

  /**
   Whatever the classifier, the folded entry of a key has the first hostname observed that does not start with "Host ",
   else the last one, and is named by it; vendor and MAC go together, id and interface are those of the first observation,
   and the capabilities those of its link and all sources.
   */
  lemma FoldNames(rules: Rules, obs: seq<Observation>)
    ensures AllNamed(rules, obs, Folded(rules, obs))
  {
    var step := Observing(rules);
    var inv := (seen, m) => AllNamed(rules, seen, m);
    forall seen, m, o | inv(seen, m) ensures inv(seen + [o], step(m, o)) {
      ObservingNames(rules, seen, m, o);
    }
    FoldInvariant(step, inv, obs);
  }

  // ---- Classification

  /** How a verdict of the classifier and the product found change a category: a specific kind is never given up. */
  ghost predicate Judged(c: Category, p: Option<Product>, was: Category, becomes: Category) {
    && (c.kind != "network-device" ==> becomes.kind == c.kind)
    && (c.kind == "network-device" && was.kind != "network-device" ==> becomes.kind == was.kind)
    && (c.kind == was.kind == "network-device" ==> becomes.kind == if p.Some? then p.value.category else "network-device")
    && becomes.title == (if c.title.Some? then c.title else was.title)
    && becomes.script == (if c.title.Some? then c.script else was.script)
    && becomes.icon ==
      if c.kind == was.kind == "network-device" && p.Some? then Some(p.value.icon)
      else if c.title.Some? then c.icon else was.icon
  }

  /** The product found last is the one held. */
  ghost predicate Supplied(p: Option<Product>, was: Details, becomes: Details) {
    becomes.productId == (if p.Some? then Some(p.value.id) else was.productId)
    && becomes.productName == (if p.Some? then Some(p.value.name) else was.productName)
  }

  /** A new entry is judged by what its first observation says. */
  lemma OpenedIsJudged(rules: Rules, o: Observation)
    ensures var vendor := if o.mac.Some? then rules.vendorName(o.mac.value) else None;
      var name := if o.hostname.Some? then o.hostname.value else UnnamedAs(o);
      var c := rules.classify(Traits(name, o.ip, o.mac, o.hostname, vendor, o.interface));
      var p := rules.product(o.hostname.GetOr(""), vendor);
      && Judged(c, p, c, Opened(rules, o).category)
      && Opened(rules, o).details.productId == (if p.Some? then Some(p.value.id) else None)
      && Opened(rules, o).details.productName == (if p.Some? then Some(p.value.name) else None)
  {
  }

  /** An entry that gets its MAC is judged by the vendor of that MAC; any other stays as it was. */
  ghost predicate JudgedByMac(rules: Rules, d: Device, o: Observation, later: Device) {
    if d.mac.None? && o.mac.Some? then
      var vendor, p := rules.vendorName(o.mac.value),
        rules.product(d.details.hostname.GetOr(""), rules.vendorName(o.mac.value));
      && later.mac == o.mac && later.details.vendor == vendor
      && Judged(rules.classify(Traits(d.displayName, d.ip, o.mac, d.details.hostname, vendor, d.interface)), p,
           d.category, later.category)
      && Supplied(p, d.details, later.details)
      && later.displayName == d.displayName && later.details.hostname == d.details.hostname
    else later == d
  }

  /** An entry that takes a hostname is judged by its new name; any other keeps category and details. */
  ghost predicate JudgedByName(rules: Rules, d: Device, o: Observation, later: Device) {
    if o.hostname.Some? && (d.details.hostname.None? || "Host " <= d.displayName) then
      var p := rules.product(o.hostname.value, d.details.vendor);
      && Judged(rules.classify(Traits(o.hostname.value, d.ip, d.mac, o.hostname, d.details.vendor, d.interface)), p,
           d.category, later.category)
      && Supplied(p, d.details, later.details)
    else later.category == d.category && later.details == d.details
  }

  lemma MacJudges(rules: Rules, d: Device, o: Observation)
    ensures JudgedByMac(rules, d, o, WithMac(rules, d, o))
  {
  }

  lemma NameJudges(rules: Rules, d: Device, o: Observation)
    ensures JudgedByName(rules, d, o, WithHostname(rules, d, o))
  {
  }

  lemma EvidenceJudgesNothing(d: Device, o: Observation)
    ensures WithEvidence(d, o).category == d.category && WithEvidence(d, o).details == d.details
  {
  }

  /** An observation has its entry judged when it brings the MAC, then when it brings the hostname, and not otherwise. */
  lemma EnrichedIsJudged(rules: Rules, d: Device, o: Observation) returns (mid: Device)
    ensures JudgedByMac(rules, d, o, mid) && JudgedByName(rules, mid, o, Enriched(rules, d, o))
  {
    mid := WithMac(rules, d, o);
    MacJudges(rules, d, o);
    NameJudges(rules, mid, o);
    EvidenceJudgesNothing(WithHostname(rules, mid, o), o);
  }

  lemma EnrichedKeepsKind(rules: Rules, d: Device, o: Observation)
    requires d.category.kind != "network-device"
    ensures Enriched(rules, d, o).category.kind != "network-device"
  {
    var mid := EnrichedIsJudged(rules, d, o);
  }

  ghost predicate IsSpecific(m: Entries, k: string) {
    k in m && m[k].category.kind != "network-device"
  }

  lemma FoldedKeepsKind(rules: Rules, obs: seq<Observation>, k: string)
    requires obs != [] && IsSpecific(Folded(rules, obs[..|obs| - 1]), k)
    ensures IsSpecific(Folded(rules, obs), k)
  {
    var n := |obs| - 1;
    EnrichedKeepsKind(rules, Folded(rules, obs[..n])[k], obs[n]);
  }

  /** Once the entry of a key has a specific kind it keeps having one, whatever is observed later and for every classifier. */
  lemma {:induction false} FoldKeepsKinds(rules: Rules, obs: seq<Observation>, i: nat, k: string)
    requires i <= |obs| && IsSpecific(Folded(rules, obs[..i]), k)
    ensures IsSpecific(Folded(rules, obs), k)
  {
    if i == |obs| {
      assert obs[..i] == obs;
    } else {
      assert obs[..|obs| - 1][..i] == obs[..i];
      FoldKeepsKinds(rules, obs[..|obs| - 1], i, k);
      FoldedKeepsKind(rules, obs, k);
    }
  }

  // ---- The pass for VPN peers

  predicate Router(d: Device) {
    (|d.ip| >= 2 && d.ip[|d.ip| - 2..] == ".1") || d.details.hostname == Some("fritz.box") || d.displayName == "fritz.box"
  }

  ghost predicate Stephan(d: Device) {
    d.ip == "192.168.178.202" || d.details.hostname == Some("iphonestephan")
    || Within("iphonestephan", Lower(d.displayName))
  }

  /** The first router of the list has a MAC, and that is the device's, which is no router itself. */
  ghost predicate Proxied(devs: seq<Device>, d: Device) {
    d.mac.Some? && !Router(d) && exists g :: FirstRouter(devs, g) && devs[g].mac == d.mac
  }

  ghost predicate FirstRouter(devs: seq<Device>, g: int) {
    0 <= g < |devs| && Router(devs[g]) && forall j :: 0 <= j < g ==> !Router(devs[j])
  }

  lemma {:induction false} GatewayIsFirstRouter(devs: seq<Device>)
    ensures GatewayMac(devs).Some? ==> exists g :: FirstRouter(devs, g) && devs[g].mac == GatewayMac(devs)
    ensures forall g :: FirstRouter(devs, g) ==> GatewayMac(devs) == devs[g].mac
  {
    if devs != [] {
      if Router(devs[0]) {
        assert FirstRouter(devs, 0);
      } else {
        GatewayIsFirstRouter(devs[1..]);
        forall g | FirstRouter(devs, g) ensures GatewayMac(devs) == devs[g].mac {
          FirstRouterTail(devs, g);
        }
        if GatewayMac(devs).Some? {
          var g :| FirstRouter(devs[1..], g) && devs[1..][g].mac == GatewayMac(devs);
          FirstRouterTail(devs, g + 1);
        }
      }
    }
  }

  lemma FirstRouterTail(devs: seq<Device>, g: int)
    requires devs != [] && !Router(devs[0])
    ensures FirstRouter(devs, g) <==> FirstRouter(devs[1..], g - 1)
  {
    assert forall j :: 1 <= j < |devs| ==> devs[j] == devs[1..][j - 1];
  }

  /** What every VPN peer is shown as. */
  ghost predicate IsPeer(d: Device) {
    && d.interface == d.category.kind == "vpn" && d.category.title == Some("VPN & Virtual Devices")
    && d.category.icon == Some("\U{1F6E1}\U{FE0F}") && d.category.script == Some("vpn_connection")
    && d.details.vendor == Some("WireGuard / FRITZ!Box VPN") && d.details.vendorId == Some("wireguard")
    && d.details.productId == Some("wireguard_vpn_peer") && d.details.productName == Some("WireGuard VPN Virtual Peer")
  }

  /**
   Exactly the named peer and the devices behind the first router's MAC are rewritten as VPN peers, with the name of the
   peer, of their hostname or of their address; every other device stays as it was.
   */
  lemma PeersExactly(devs: seq<Device>, i: nat)
    requires i < |devs|
    ensures var e, d := devs[i], FinishedAll(devs)[i];
      if Stephan(e) || Proxied(devs, e) then
        && IsPeer(d)
        && d.details.hostname == (if Stephan(e) then Some("iphonestephan") else e.details.hostname)
        && d.displayName ==
          if Stephan(e) then "iPhone Stephan (WireGuard VPN)"
          else match e.details.hostname
            case None => "VPN Peer (" + e.ip + ")"
            case Some(h) => if Within("vpn", Lower(h)) then e.displayName else h + " (VPN)"
      else d == e
    ensures FinishedAll(devs)[i].capabilities == devs[i].capabilities
  {
    ContainsAt(Lower(devs[i].displayName), "iphonestephan");
    if devs[i].details.hostname.Some? {
      ContainsAt(Lower(devs[i].details.hostname.value), "vpn");
    }
    GatewayIsFirstRouter(devs);
  }

  // ---- The result

  /** A device of the result is rewritten as a VPN peer, or named as its observations say and of the kind of its entry. */
  ghost predicate Settled(rules: Rules, obs: seq<Observation>, k: string, d: Device) {
    && k in Folded(rules, obs) && Capable(obs, k, d)
    && (IsPeer(d) || (Named(rules, obs, k, d) && d.category == Folded(rules, obs)[k].category))
  }

  /** The device of every key is settled; one whose entry was ever of a specific kind is of a specific kind. */
  lemma AggregatedAreSettled(rules: Rules, obs: seq<Observation>, out: seq<Device>, k: string)
    returns (d: Device)
    requires Aggregated(rules, obs, out) && k in KeysOf(obs)
    ensures d in out && Accounts(obs, k, d) && Settled(rules, obs, k, d)
    ensures (exists i :: 0 <= i <= |obs| && IsSpecific(Folded(rules, obs[..i]), k)) ==> d.category.kind != "network-device"
  {
    var order :| AggregatedVia(rules, obs, order, out);
    ListedAccounts(rules, obs, order, out);
    FoldAccounts(rules, obs);
    FoldNames(rules, obs);
    var listed := Listed(Folded(rules, obs), order);
    assert k in Elements(order);
    var n :| 0 <= n < |order| && order[n] == k;
    PeersExactly(listed, n);
    d := FinishedAll(listed)[n];
    assert d in multiset(FinishedAll(listed));
    if i :| 0 <= i <= |obs| && IsSpecific(Folded(rules, obs[..i]), k) {
      FoldKeepsKinds(rules, obs, i, k);
    }
  }
}
