/**
 Links between the interfaces of one device: automatic linking of BLE devices to network devices, and
 the manual link and unlink updates.
 */
module DeviceLinks {
  import opened Options
  import opened Text
  import opened ControlRegistry

  /** From a primary device id to the ids (or MACs) of its secondary interfaces. */
  type Links = map<string, seq<string>>

  function Meta(d: DeviceRecord, key: string): Option<string> {
    if key in d.metadata then Some(d.metadata[key]) else None
  }

  predicate IsBle(d: DeviceRecord) {
    Meta(d, "protocol") == Some("ble") || "mobile-ble-" <= d.deviceId || d.moduleId == "bthome"
  }

  // ---- Hexadecimal MACs in Shelly names

  predicate IsHexDigit(c: char) {
    '0' <= c <= '9' || 'a' <= c <= 'f' || 'A' <= c <= 'F'
  }

  predicate IsHexMac(s: string) {
    |s| == 12 && forall i :: 0 <= i < 12 ==> IsHexDigit(s[i])
  }

  /** What follows the last separator, if there is one. */
  function AfterSeparator(s: string): Option<string> {
    if s == "" then None
    else if s[|s| - 1] in {'-', '_', ' '} then Some("")
    else match AfterSeparator(s[..|s| - 1])
      case Some(t) => Some(t + [s[|s| - 1]])
      case None => None
  }

  function ShellyHex(name: string): (r: Option<string>)
    ensures r.Some? ==> |r.value| == 12
  {
    var cleaned := Trim(name);
    var suffix := AfterSeparator(cleaned);
    if !Contains(Lower(name), "shelly") then None
    else if suffix.Some? && IsHexMac(suffix.value) then Some(Upper(suffix.value))
    else if |cleaned| >= 12 && IsHexMac(cleaned[|cleaned| - 12..]) then Some(Upper(cleaned[|cleaned| - 12..]))
    else None
  }

  // ---- Matching

  /** Network devices by MAC (and by its first ten digits), and by the model prefixes. */
  datatype Index = Index(macs: map<string, string>, models: map<string, string>)

  const MODELS: seq<string> := ["shellypro3em", "shellypro4pm", "shellyplus1"]

  function WithHexMac(macs: map<string, string>, hex: string, id: string): map<string, string>
    requires |hex| >= 10
  {
    macs[hex := id][hex[..10] := id]
  }

  predicate ReportsActive(d: DeviceRecord) {
    Meta(d, "is_active") == Some("true") || Meta(d, "status") == Some("active")
  }

  function WithModels(models: map<string, string>, d: DeviceRecord, keys: seq<string>): map<string, string> {
    if keys == [] then models
    else
      var before := WithModels(models, d, keys[..|keys| - 1]);
      var key := keys[|keys| - 1];
      var host := Lower(Upper(Meta(d, "hostname").GetOr("")));
      if (Contains(Lower(d.displayName), key) || Contains(host, key)) && (ReportsActive(d) || key !in before)
      then before[key := d.deviceId]
      else before
  }

  function Indexed(index: Index, d: DeviceRecord): Index {
    if IsBle(d) then index
    else
      var mac := Upper(Without(Meta(d, "mac").GetOr(""), {':', '-'}));
      var macs := if Meta(d, "mac").Some? && |mac| == 12 then WithHexMac(index.macs, mac, d.deviceId) else index.macs;
      var host := Upper(Meta(d, "hostname").GetOr(""));
      var hex := ShellyHex(host);
      var macs' := if Contains(host, "SHELLY") && hex.Some? then WithHexMac(macs, hex.value, d.deviceId) else macs;
      Index(macs', WithModels(index.models, d, MODELS))
  }

  function IndexOf(devices: seq<DeviceRecord>): Index {
    if devices == [] then Index(map[], map[])
    else Indexed(IndexOf(devices[..|devices| - 1]), devices[|devices| - 1])
  }

  function ByModel(models: map<string, string>, name: string, keys: seq<string>): Option<string> {
    if keys == [] then None
    else if Contains(name, keys[0]) && keys[0] in models then Some(models[keys[0]])
    else ByModel(models, name, keys[1..])
  }

  /** The network device a BLE device belongs to, by full MAC, else by its first ten digits, else by model. */
  function MatchedPrimary(index: Index, d: DeviceRecord): Option<string> {
    var hex := ShellyHex(d.displayName);
    if hex.None? then None
    else if hex.value in index.macs then Some(index.macs[hex.value])
    else if hex.value[..10] in index.macs then Some(index.macs[hex.value[..10]])
    else ByModel(index.models, Lower(d.displayName), MODELS)
  }

  // ---- Automatic linking

  function Secondaries(links: Links): set<string> {
    set k, x | k in links && x in links[k] :: x
  }

  function ListOf(links: Links, k: string): seq<string> {
    if k in links then links[k] else []
  }

  datatype Linking = Linking(links: Links, linked: set<string>, modified: bool)

  /** Does the device get a link in this state? */
  predicate GetsLink(index: Index, st: Linking, d: DeviceRecord) {
    && IsBle(d) && d.deviceId !in st.linked
    && var p := MatchedPrimary(index, d);
    p.Some? && p.value != d.deviceId && d.deviceId !in ListOf(st.links, p.value)
  }

  function Considered(index: Index, st: Linking, d: DeviceRecord): Linking {
    if GetsLink(index, st, d) then
      var p := MatchedPrimary(index, d).value;
      Linking(st.links[p := ListOf(st.links, p) + [d.deviceId]], st.linked + {d.deviceId}, true)
    else st
  }

  function LinkedUpTo(index: Index, links: Links, devices: seq<DeviceRecord>): Linking {
    if devices == [] then Linking(links, Secondaries(links), false)
    else Considered(index, LinkedUpTo(index, links, devices[..|devices| - 1]), devices[|devices| - 1])
  }

  function AutoLinked(devices: seq<DeviceRecord>, links: Links): Linking {
    LinkedUpTo(IndexOf(devices), links, devices)
  }

  method BuildIndex(devices: seq<DeviceRecord>) returns (index: Index)
    ensures index == IndexOf(devices)
  {
    index := Index(map[], map[]);
    assert devices[..0] == [];
    for i := 0 to |devices|
      invariant index == IndexOf(devices[..i])
    {
      assert devices[..i + 1][..i] == devices[..i];
      index := Indexed(index, devices[i]);
    }
    assert devices[..|devices|] == devices;
  }

  /** The stored links, updated by hand and automatically. */
  class LinkStore {
    var links: Links

    constructor (links: Links)
      ensures this.links == links
    {
      this.links := links;
    }

    method AutoLinkDeterministicDevices(devices: seq<DeviceRecord>) returns (modified: bool)
      modifies this
      ensures links == AutoLinked(devices, old(links)).links && modified == AutoLinked(devices, old(links)).modified
    {
      modified := false;
      ghost var before := links;
      var alreadyLinked := Secondaries(links);
      var index := BuildIndex(devices);
      for i := 0 to |devices|
        invariant Linking(links, alreadyLinked, modified) == LinkedUpTo(index, before, devices[..i])
      {
        assert devices[..i + 1][..i] == devices[..i];
        var dev := devices[i];
        if IsBle(dev) && dev.deviceId !in alreadyLinked {
          var primary := MatchedPrimary(index, dev);
          if primary.Some? && primary.value != dev.deviceId {
            var list := ListOf(links, primary.value);
            if dev.deviceId !in list {
              links := links[primary.value := list + [dev.deviceId]];
              alreadyLinked := alreadyLinked + {dev.deviceId};
              modified := true;
            }
          }
        }
      }
      assert devices[..|devices|] == devices;
    }

    method LinkDevices(primaryId: string, linkedId: string)
      modifies this
      ensures links == LinkAdded(old(links), primaryId, linkedId)
    {
      var (primary, linked) := Oriented(primaryId, linkedId);
      var list := ListOf(links, primary);
      if linked !in list {
        list := list + [linked];
      }
      links := links[primary := list];
    }

    method UnlinkDevices(primaryId: string, linkedId: string)
      modifies this
      ensures links == LinkRemoved(old(links), primaryId, linkedId)
    {
      if primaryId in links {
        links := links[primaryId := WithoutId(links[primaryId], linkedId)];
      }
      if linkedId in links {
        links := links[linkedId := WithoutId(links[linkedId], primaryId)];
      }
    }
  }

  predicate Owns(links: Links, k: string, x: string) {
    k in links && x in links[k]
  }

  ghost predicate Owned(links: Links, x: string) {
    exists k :: Owns(links, k, x)
  }

  lemma SecondariesAreOwned(links: Links)
    ensures forall x :: x in Secondaries(links) <==> Owned(links, x)
  {
    forall x ensures x in Secondaries(links) <==> Owned(links, x) {
      if x in Secondaries(links) {
        var k :| k in links && x in links[k];
        assert Owns(links, k, x);
      }
    }
  }

  /** What a run of the linking loop keeps: it only appends links, and remembers every linked id. */
  ghost predicate Extends(links: Links, st: Linking) {
    && (forall x :: x in st.linked <==> Owned(st.links, x))
    && (forall k :: k in links ==> k in st.links && links[k] <= st.links[k])
    && (st.modified <==> st.links != links)
    && (forall k, x :: Owns(st.links, k, x) && Owned(links, x) ==> Owns(links, k, x))
    && (forall k, j, x :: Owns(st.links, k, x) && Owns(st.links, j, x) && !Owned(links, x) ==> k == j)
  }

  lemma ConsideredExtends(index: Index, links: Links, st: Linking, d: DeviceRecord)
    requires Extends(links, st)
    ensures Extends(links, Considered(index, st, d))
  {
    if GetsLink(index, st, d) {
      LinkingExtends(links, st, MatchedPrimary(index, d).value, d.deviceId);
    }
  }

  lemma LinkingExtends(links: Links, st: Linking, p: string, id: string)
    requires Extends(links, st) && id !in st.linked
    ensures Extends(links, Linking(st.links[p := ListOf(st.links, p) + [id]], st.linked + {id}, true))
  {
    var after := st.links[p := ListOf(st.links, p) + [id]];
    assert forall k, x :: Owns(after, k, x) <==> Owns(st.links, k, x) || (k == p && x == id);
    assert !Owned(st.links, id);
    assert forall k :: Owns(links, k, id) ==> Owns(st.links, k, id);
    forall x ensures x in st.linked + {id} <==> Owned(after, x) {
      if Owned(st.links, x) {
        var k :| Owns(st.links, k, x);
        assert Owns(after, k, x);
      }
      assert Owns(after, p, id);
    }
    assert Owns(after, p, id) && !Owns(links, p, id);
  }

  lemma {:induction false} LinkedUpToExtends(index: Index, links: Links, devices: seq<DeviceRecord>)
    ensures Extends(links, LinkedUpTo(index, links, devices))
  {
    SecondariesAreOwned(links);
    if devices != [] {
      LinkedUpToExtends(index, links, devices[..|devices| - 1]);
      ConsideredExtends(index, links, LinkedUpTo(index, links, devices[..|devices| - 1]), devices[|devices| - 1]);
    }
  }

  predicate Linkable(index: Index, d: DeviceRecord) {
    IsBle(d) && MatchedPrimary(index, d).Some? && MatchedPrimary(index, d).value != d.deviceId
  }

  /** A device that could be linked is linked afterwards. */
  lemma {:induction false} ConsideredStayLinked(index: Index, links: Links, devices: seq<DeviceRecord>)
    ensures var st := LinkedUpTo(index, links, devices);
      forall d :: d in devices && Linkable(index, d) ==> d.deviceId in st.linked
  {
    if devices != [] {
      var n := |devices| - 1;
      ConsideredStayLinked(index, links, devices[..n]);
      LinkedUpToExtends(index, links, devices[..n]);
      var st, d := LinkedUpTo(index, links, devices[..n]), devices[n];
      assert devices == devices[..n] + [d];
      if MatchedPrimary(index, d).Some? {
        assert d.deviceId in ListOf(st.links, MatchedPrimary(index, d).value) ==>
          Owns(st.links, MatchedPrimary(index, d).value, d.deviceId);
      }
    }
  }

  lemma {:induction false} NothingLeftToLink(index: Index, links: Links, devices: seq<DeviceRecord>)
    requires forall d :: d in devices && Linkable(index, d) ==> d.deviceId in Secondaries(links)
    ensures LinkedUpTo(index, links, devices) == Linking(links, Secondaries(links), false)
  {
    if devices != [] {
      var n := |devices| - 1;
      assert devices[n] in devices && forall d :: d in devices[..n] ==> d in devices;
      NothingLeftToLink(index, links, devices[..n]);
    }
  }

  /** Automatic linking reaches a fixpoint: a second run over the same devices changes and reports nothing. */
  lemma AutoLinkingIsIdempotent(devices: seq<DeviceRecord>, links: Links)
    ensures var once := AutoLinked(devices, links);
      AutoLinked(devices, once.links) == Linking(once.links, Secondaries(once.links), false)
  {
    var once := AutoLinked(devices, links);
    ConsideredStayLinked(IndexOf(devices), links, devices);
    LinkedUpToExtends(IndexOf(devices), links, devices);
    SecondariesAreOwned(once.links);
    NothingLeftToLink(IndexOf(devices), once.links, devices);
  }

  /**
   Existing links are kept in order, an id that was a secondary gains no owner, an id that was not gains
   at most one, and "modified" is reported exactly if some link was added.
   */
  lemma AutoLinkingOnlyAdds(devices: seq<DeviceRecord>, links: Links)
    ensures var r := AutoLinked(devices, links);
      && (forall k :: k in links ==> k in r.links && links[k] <= r.links[k])
      && (forall k, x :: Owns(r.links, k, x) && Owned(links, x) ==> Owns(links, k, x))
      && (forall k, j, x :: Owns(r.links, k, x) && Owns(r.links, j, x) && !Owned(links, x) ==> k == j)
      && (r.modified <==> r.links != links)
  {
    LinkedUpToExtends(IndexOf(devices), links, devices);
  }

  /** An id is in the index only as the id of a network device of the list. */
  ghost predicate FromNetwork(devices: seq<DeviceRecord>, id: string) {
    exists d :: d in devices && !IsBle(d) && d.deviceId == id
  }

  lemma {:induction false} ModelsOrigin(models: map<string, string>, d: DeviceRecord, keys: seq<string>)
    ensures forall k :: k in WithModels(models, d, keys) ==>
      (k in models && WithModels(models, d, keys)[k] == models[k]) || WithModels(models, d, keys)[k] == d.deviceId
  {
    if keys != [] {
      ModelsOrigin(models, d, keys[..|keys| - 1]);
    }
  }

  lemma {:induction false} IndexOrigin(devices: seq<DeviceRecord>)
    ensures forall k :: k in IndexOf(devices).macs ==> FromNetwork(devices, IndexOf(devices).macs[k])
    ensures forall k :: k in IndexOf(devices).models ==> FromNetwork(devices, IndexOf(devices).models[k])
  {
    if devices != [] {
      var init, d := devices[..|devices| - 1], devices[|devices| - 1];
      IndexOrigin(init);
      ModelsOrigin(IndexOf(init).models, d, MODELS);
      assert devices == init + [d];
      forall id | FromNetwork(init, id) ensures FromNetwork(devices, id) {
        var e :| e in init && !IsBle(e) && e.deviceId == id;
        assert e in devices;
      }
      assert d in devices;
      assert !IsBle(d) ==> FromNetwork(devices, d.deviceId);
    }
  }

  lemma {:induction false} ByModelOrigin(models: map<string, string>, name: string, keys: seq<string>)
    ensures ByModel(models, name, keys).Some? ==> exists k :: k in models && models[k] == ByModel(models, name, keys).value
  {
    if keys != [] {
      ByModelOrigin(models, name, keys[1..]);
    }
  }

  /** Every new link goes from a network device of the list to a BLE device of the list. */
  lemma {:induction false} NewLinksJoinListedDevices(index: Index, all: seq<DeviceRecord>, links: Links, devices: seq<DeviceRecord>)
    requires index == IndexOf(all)
    ensures forall k, x :: Owns(LinkedUpTo(index, links, devices).links, k, x) && !Owns(links, k, x) ==>
      FromNetwork(all, k) && k != x && exists d :: d in devices && IsBle(d) && d.deviceId == x
  {
    if devices != [] {
      var init, d := devices[..|devices| - 1], devices[|devices| - 1];
      NewLinksJoinListedDevices(index, all, links, init);
      IndexOrigin(all);
      ByModelOrigin(index.models, Lower(d.displayName), MODELS);
      var st, st' := LinkedUpTo(index, links, init), LinkedUpTo(index, links, devices);
      assert devices == init + [d];
      forall k, x | Owns(st'.links, k, x) && !Owns(links, k, x)
        ensures FromNetwork(all, k) && k != x && exists e :: e in devices && IsBle(e) && e.deviceId == x
      {
        if Owns(st.links, k, x) {
          var e :| e in init && IsBle(e) && e.deviceId == x;
          assert e in devices;
        } else {
          assert GetsLink(index, st, d) && d in devices;
        }
      }
    }
  }

  // ---- Manual updates

  predicate BleId(id: string) {
    "mobile-ble-" <= id || "bthome-" <= id
  }

  /** A BLE primary with a network secondary is turned round before it is stored. */
  function Oriented(primary: string, linked: string): (string, string) {
    if BleId(primary) && !BleId(linked) then (linked, primary) else (primary, linked)
  }

  function LinkAdded(links: Links, primary: string, linked: string): Links {
    var (p, l) := Oriented(primary, linked);
    links[p := if l in ListOf(links, p) then ListOf(links, p) else ListOf(links, p) + [l]]
  }

  function WithoutId(ids: seq<string>, id: string): seq<string> {
    if ids == [] then []
    else WithoutId(ids[..|ids| - 1], id) + if ids[|ids| - 1] == id then [] else [ids[|ids| - 1]]
  }

  function OneWayRemoved(links: Links, primary: string, linked: string): Links {
    if primary in links then links[primary := WithoutId(links[primary], linked)] else links
  }

  function LinkRemoved(links: Links, primary: string, linked: string): Links {
    OneWayRemoved(OneWayRemoved(links, primary, linked), linked, primary)
  }

  lemma {:induction false} WithoutIdRemoves(ids: seq<string>, id: string)
    ensures forall x :: x in WithoutId(ids, id) <==> x in ids && x != id
  {
    if ids != [] {
      WithoutIdRemoves(ids[..|ids| - 1], id);
      assert ids == ids[..|ids| - 1] + [ids[|ids| - 1]];
    }
  }

  /**
   Linking adds one link, from the one that is no BLE device if the other is one; every list keeps its order, and no link
   is repeated.
   */
  lemma LinkAddsOne(links: Links, a: string, b: string)
    ensures var turned := ("mobile-ble-" <= a || "bthome-" <= a) && !("mobile-ble-" <= b) && !("bthome-" <= b);
      forall k, x :: Owns(LinkAdded(links, a, b), k, x) <==>
        Owns(links, k, x) || (if turned then k == b && x == a else k == a && x == b)
    ensures forall k :: k in links ==> k in LinkAdded(links, a, b) && links[k] <= LinkAdded(links, a, b)[k]
    ensures (if ("mobile-ble-" <= a || "bthome-" <= a) && !("mobile-ble-" <= b) && !("bthome-" <= b)
             then Owns(links, b, a) else Owns(links, a, b)) ==> LinkAdded(links, a, b) == links
  {
  }

  /**
   Unlinking removes exactly the link between the two ids, in both directions; so it undoes a link
   whichever way round that was stored.
   */
  lemma UnlinkRemovesBothWays(links: Links, a: string, b: string)
    ensures forall k, x :: Owns(LinkRemoved(links, a, b), k, x) <==>
      Owns(links, k, x) && !(k == a && x == b) && !(k == b && x == a)
    ensures forall k, x :: Owns(LinkRemoved(LinkAdded(links, a, b), a, b), k, x) <==> Owns(LinkRemoved(links, a, b), k, x)
  {
    var added := LinkAdded(links, a, b);
    UnlinkOneWay(links, a, b);
    UnlinkOneWay(OneWayRemoved(links, a, b), b, a);
    UnlinkOneWay(added, a, b);
    UnlinkOneWay(OneWayRemoved(added, a, b), b, a);
    var (p, l) := Oriented(a, b);
    assert forall k, x :: Owns(added, k, x) <==> Owns(links, k, x) || (k == p && x == l);
  }

  lemma UnlinkOneWay(links: Links, p: string, l: string)
    ensures forall k, x :: Owns(OneWayRemoved(links, p, l), k, x) <==> Owns(links, k, x) && !(k == p && x == l)
  {
    if p in links {
      WithoutIdRemoves(links[p], l);
    }
  }
}
