/** Which network device automatic linking finds for a BLE device, told from the list of devices. */
module DevicePairing {
  import opened Options
  import opened Text
  import opened ControlRegistry
  import opened DeviceLinks

  // ---- Names that end in a MAC

  predicate HexDigits(s: string) {
    forall i :: 0 <= i < |s| ==> s[i] in "0123456789abcdefABCDEF"
  }

  lemma HexMacIsDigits(s: string)
    ensures IsHexMac(s) <==> |s| == 12 && HexDigits(s)
  {
    forall c: char ensures IsHexDigit(c) <==> c in "0123456789abcdefABCDEF" {
      assert c in "0123456789abcdefABCDEF" <==>
        c in {'0', '1', '2', '3', '4', '5', '6', '7', '8', '9', 'a', 'b', 'c', 'd', 'e', 'f', 'A', 'B', 'C', 'D', 'E', 'F'};
    }
  }

  lemma {:induction false} SeparatorSplits(s: string)
    ensures AfterSeparator(s).Some? ==> |AfterSeparator(s).value| < |s|
    ensures AfterSeparator(s).Some? ==> AfterSeparator(s).value == s[|s| - |AfterSeparator(s).value|..]
  {
    if s != "" && !(s[|s| - 1] in {'-', '_', ' '}) {
      SeparatorSplits(s[..|s| - 1]);
    }
  }

  /**
   The separators make no difference: a name with "shelly" in it stands for the MAC of its last twelve characters, if
   these are hexadecimal digits.
   */
  lemma HexIsTheEnd(name: string)
    ensures var cleaned := Trim(name);
      ShellyHex(name) ==
        if Within("shelly", Lower(name)) && |cleaned| >= 12 && HexDigits(cleaned[|cleaned| - 12..])
        then Some(Upper(cleaned[|cleaned| - 12..])) else None
  {
    var cleaned := Trim(name);
    ContainsAt(Lower(name), "shelly");
    SeparatorSplits(cleaned);
    if AfterSeparator(cleaned).Some? {
      HexMacIsDigits(AfterSeparator(cleaned).value);
    }
    if |cleaned| >= 12 {
      HexMacIsDigits(cleaned[|cleaned| - 12..]);
    }
  }

  // ---- The index

  predicate OnNetwork(d: DeviceRecord) {
    && !("protocol" in d.metadata && d.metadata["protocol"] == "ble")
    && !("mobile-ble-" <= d.deviceId) && d.moduleId != "bthome"
  }

  function Hostname(d: DeviceRecord): string {
    Upper(if "hostname" in d.metadata then d.metadata["hostname"] else "")
  }

  /** The device's MAC, or the one its hostname ends with. */
  predicate BearsHex(d: DeviceRecord, hex: string) {
    || ("mac" in d.metadata && |hex| == 12 && hex == Upper(Without(d.metadata["mac"], {':', '-'})))
    || (Contains(Hostname(d), "SHELLY") && ShellyHex(Hostname(d)) == Some(hex))
  }

  predicate KeyFor(key: string, hex: string) {
    |hex| == 12 && (key == hex || key == hex[..10])
  }

  /** A network device with this MAC, or one with these first ten digits. */
  ghost predicate Bears(d: DeviceRecord, key: string) {
    OnNetwork(d) && exists hex :: BearsHex(d, hex) && KeyFor(key, hex)
  }

  ghost predicate LastBearing(devices: seq<DeviceRecord>, key: string, i: int) {
    0 <= i < |devices| && Bears(devices[i], key) && forall j :: i < j < |devices| ==> !Bears(devices[j], key)
  }

  lemma HexFiled(macs: map<string, string>, hex: string, id: string, key: string)
    requires |hex| == 12
    ensures key in WithHexMac(macs, hex, id) <==> key in macs || KeyFor(key, hex)
    ensures key in WithHexMac(macs, hex, id) ==>
      WithHexMac(macs, hex, id)[key] == if KeyFor(key, hex) then id else macs[key]
  {
  }

  /** The two MACs that a device may bear: its own, and the one in its hostname. */
  lemma BearsByEither(d: DeviceRecord, key: string)
    ensures var mac, hex := Upper(Without(Meta(d, "mac").GetOr(""), {':', '-'})), ShellyHex(Hostname(d));
      Bears(d, key) <==>
        OnNetwork(d) && ((Meta(d, "mac").Some? && KeyFor(key, mac))
                         || (Contains(Hostname(d), "SHELLY") && hex.Some? && KeyFor(key, hex.value)))
  {
    var mac, hex := Upper(Without(Meta(d, "mac").GetOr(""), {':', '-'})), ShellyHex(Hostname(d));
    if Meta(d, "mac").Some? && |mac| == 12 {
      assert BearsHex(d, mac);
    }
    if Contains(Hostname(d), "SHELLY") && hex.Some? {
      assert BearsHex(d, hex.value);
    }
  }

  /** What one more device does to the MACs of the index. */
  lemma MacsNext(index: Index, d: DeviceRecord, key: string)
    ensures key in Indexed(index, d).macs <==> key in index.macs || Bears(d, key)
    ensures key in Indexed(index, d).macs ==>
      Indexed(index, d).macs[key] == if Bears(d, key) then d.deviceId else index.macs[key]
  {
    assert OnNetwork(d) <==> !IsBle(d);
    var mac, hex := Upper(Without(Meta(d, "mac").GetOr(""), {':', '-'})), ShellyHex(Hostname(d));
    assert Hostname(d) == Upper(Meta(d, "hostname").GetOr(""));
    BearsByEither(d, key);
    var has := Meta(d, "mac").Some? && |mac| == 12;
    if has {
      HexFiled(index.macs, mac, d.deviceId, key);
    }
    if hex.Some? {
      HexFiled(if has then WithHexMac(index.macs, mac, d.deviceId) else index.macs, hex.value, d.deviceId, key);
    }
  }

  lemma LastBearingNext(devices: seq<DeviceRecord>, key: string, i: int)
    requires devices != []
    ensures LastBearing(devices, key, i) <==>
      if Bears(devices[|devices| - 1], key) then i == |devices| - 1 else LastBearing(devices[..|devices| - 1], key, i)
  {
  }

  /** Under each MAC, and under its first ten digits, the index has the last network device that bears it. */
  lemma {:induction false} MacsAreLast(devices: seq<DeviceRecord>, key: string)
    ensures key in IndexOf(devices).macs <==> Borne(devices, key)
    ensures forall i :: LastBearing(devices, key, i) ==> IndexOf(devices).macs[key] == devices[i].deviceId
  {
    if devices != [] {
      var n := |devices| - 1;
      MacsAreLast(devices[..n], key);
      MacsNext(IndexOf(devices[..n]), devices[n], key);
      forall i { LastBearingNext(devices, key, i); }
      if Bears(devices[n], key) {
        assert LastBearing(devices, key, n);
      } else if i :| LastBearing(devices[..n], key, i) {
        assert LastBearing(devices, key, i);
      }
    }
  }

  predicate NamedAfter(d: DeviceRecord, model: string) {
    OnNetwork(d) && (Contains(Lower(d.displayName), model) || Contains(Lower(Hostname(d)), model))
  }

  predicate SaysActive(d: DeviceRecord) {
    || ("is_active" in d.metadata && d.metadata["is_active"] == "true")
    || ("status" in d.metadata && d.metadata["status"] == "active")
  }

  /** The last active device named after the model, or the first of all if none is active. */
  ghost predicate StandsForModel(devices: seq<DeviceRecord>, model: string, i: int) {
    && 0 <= i < |devices| && NamedAfter(devices[i], model)
    && if SaysActive(devices[i]) then
         forall j :: i < j < |devices| && NamedAfter(devices[j], model) ==> !SaysActive(devices[j])
       else
         && (forall j :: 0 <= j < |devices| && NamedAfter(devices[j], model) ==> !SaysActive(devices[j]))
         && (forall j :: 0 <= j < i ==> !NamedAfter(devices[j], model))
  }

  lemma {:induction false} WithModelsAt(models: map<string, string>, d: DeviceRecord, keys: seq<string>, model: string)
    requires OnNetwork(d) && forall i, j :: 0 <= i < j < |keys| ==> keys[i] != keys[j]
    ensures var after := WithModels(models, d, keys);
      var taken := model in keys && NamedAfter(d, model) && (SaysActive(d) || model !in models);
      && (model in after <==> taken || model in models)
      && (model in after ==> after[model] == if taken then d.deviceId else models[model])
  {
    if keys != [] {
      var n := |keys| - 1;
      WithModelsAt(models, d, keys[..n], model);
      assert keys == keys[..n] + [keys[n]];
      assert Hostname(d) == Upper(Meta(d, "hostname").GetOr("")) && (SaysActive(d) <==> ReportsActive(d));
    }
  }

  lemma ModelsNext(index: Index, d: DeviceRecord, model: string)
    requires model in MODELS
    ensures var after := Indexed(index, d).models;
      var taken := NamedAfter(d, model) && (SaysActive(d) || model !in index.models);
      && (model in after <==> taken || model in index.models)
      && (model in after ==> after[model] == if taken then d.deviceId else index.models[model])
  {
    assert OnNetwork(d) <==> !IsBle(d);
    if OnNetwork(d) {
      assert MODELS[0][9] == '3' && MODELS[1][9] == '4' && |MODELS[2]| == 11 < |MODELS[0]| == |MODELS[1]|;
      WithModelsAt(index.models, d, MODELS, model);
    }
  }

  lemma StandsNext(devices: seq<DeviceRecord>, d: DeviceRecord, model: string, i: int)
    ensures StandsForModel(devices + [d], model, i) <==>
      if NamedAfter(d, model) && (SaysActive(d) || forall j :: !StandsForModel(devices, model, j)) then i == |devices|
      else StandsForModel(devices, model, i)
  {
    var all := devices + [d];
    assert forall j :: 0 <= j < |devices| ==> all[j] == devices[j];
    assert all[|devices|] == d;
    if j :| 0 <= j < |devices| && NamedAfter(devices[j], model) {
      var s := SomeStands(devices, model, j);
    }
  }

  /** If a device is named after the model, one stands for it. */
  lemma {:induction false} SomeStands(devices: seq<DeviceRecord>, model: string, j: nat) returns (s: nat)
    requires j < |devices| && NamedAfter(devices[j], model)
    ensures StandsForModel(devices, model, s)
  {
    if i :| 0 <= i < |devices| && NamedAfter(devices[i], model) && SaysActive(devices[i]) {
      s := i;
      for l := i + 1 to |devices|
        invariant s < l && NamedAfter(devices[s], model) && SaysActive(devices[s])
        invariant forall x :: s < x < l && NamedAfter(devices[x], model) ==> !SaysActive(devices[x])
      {
        if NamedAfter(devices[l], model) && SaysActive(devices[l]) {
          s := l;
        }
      }
    } else {
      s := 0;
      while !NamedAfter(devices[s], model)
        invariant s <= j && forall l :: 0 <= l < s ==> !NamedAfter(devices[l], model)
        decreases j - s
      {
        s := s + 1;
      }
    }
  }

  lemma {:induction false} ModelsStand(devices: seq<DeviceRecord>, model: string)
    requires model in MODELS
    ensures model in IndexOf(devices).models <==> exists i :: StandsForModel(devices, model, i)
    ensures forall i :: StandsForModel(devices, model, i) ==> IndexOf(devices).models[model] == devices[i].deviceId
  {
    if devices != [] {
      var n := |devices| - 1;
      ModelsStand(devices[..n], model);
      ModelsNext(IndexOf(devices[..n]), devices[n], model);
      assert devices == devices[..n] + [devices[n]];
      forall i { StandsNext(devices[..n], devices[n], model, i); }
      if NamedAfter(devices[n], model) && (SaysActive(devices[n]) || forall j :: !StandsForModel(devices[..n], model, j)) {
        assert StandsForModel(devices, model, n);
      } else if j :| StandsForModel(devices[..n], model, j) {
        assert StandsForModel(devices, model, j);
      }
    }
  }

  // ---- The owner

  ghost predicate Unclaimed(devices: seq<DeviceRecord>, model: string) {
    forall j :: !StandsForModel(devices, model, j)
  }

  /** Device `i` stands for model `k`, the first model in the name that some device stands for. */
  ghost predicate OwnsAt(devices: seq<DeviceRecord>, name: string, keys: seq<string>, k: int, i: int) {
    && 0 <= k < |keys| && Contains(name, keys[k]) && StandsForModel(devices, keys[k], i)
    && forall l :: 0 <= l < k && Contains(name, keys[l]) ==> Unclaimed(devices, keys[l])
  }

  ghost predicate OwnsByModel(devices: seq<DeviceRecord>, name: string, keys: seq<string>, i: int) {
    exists k :: OwnsAt(devices, name, keys, k, i)
  }

  /**
   The owner of a BLE device named after a Shelly: the last network device that bears its MAC, else the last that bears
   the first ten digits of it, else the one that stands for its model.
   */
  ghost predicate Owner(devices: seq<DeviceRecord>, d: DeviceRecord, i: int) {
    var hex := ShellyHex(d.displayName);
    && hex.Some?
    && if Borne(devices, hex.value) then LastBearing(devices, hex.value, i)
       else if Borne(devices, hex.value[..10]) then LastBearing(devices, hex.value[..10], i)
       else OwnsByModel(devices, Lower(d.displayName), MODELS, i)
  }

  ghost predicate Borne(devices: seq<DeviceRecord>, key: string) {
    exists j :: LastBearing(devices, key, j)
  }

  lemma {:induction false} ByModelOwns(devices: seq<DeviceRecord>, name: string, keys: seq<string>)
    requires forall key :: key in keys ==> key in MODELS
    ensures var p := ByModel(IndexOf(devices).models, name, keys);
      && (p.Some? <==> exists i :: OwnsByModel(devices, name, keys, i))
      && forall i :: OwnsByModel(devices, name, keys, i) ==> p == Some(devices[i].deviceId)
  {
    if keys != [] {
      ModelsStand(devices, keys[0]);
      ByModelOwns(devices, name, keys[1..]);
      if Contains(name, keys[0]) && keys[0] in IndexOf(devices).models {
        FirstModelOwns(devices, name, keys);
      } else {
        forall i { OwnsByLater(devices, name, keys, i); }
      }
    }
  }

  lemma FirstModelOwns(devices: seq<DeviceRecord>, name: string, keys: seq<string>)
    requires keys != [] && Contains(name, keys[0]) && !Unclaimed(devices, keys[0])
    ensures forall i :: OwnsByModel(devices, name, keys, i) <==> StandsForModel(devices, keys[0], i)
  {
    forall i ensures OwnsByModel(devices, name, keys, i) <==> StandsForModel(devices, keys[0], i) {
      if StandsForModel(devices, keys[0], i) {
        assert OwnsAt(devices, name, keys, 0, i);
      }
      if k :| OwnsAt(devices, name, keys, k, i) {
        assert k == 0;
      }
    }
  }

  lemma OwnsByLater(devices: seq<DeviceRecord>, name: string, keys: seq<string>, i: int)
    requires keys != [] && (Contains(name, keys[0]) ==> Unclaimed(devices, keys[0]))
    ensures OwnsByModel(devices, name, keys, i) <==> OwnsByModel(devices, name, keys[1..], i)
  {
    if k :| OwnsAt(devices, name, keys, k, i) {
      OwnsAtLater(devices, name, keys, k, i);
    }
    if k :| OwnsAt(devices, name, keys[1..], k, i) {
      OwnsAtLater(devices, name, keys, k + 1, i);
    }
  }

  lemma OwnsAtLater(devices: seq<DeviceRecord>, name: string, keys: seq<string>, k: int, i: int)
    requires keys != [] && (Contains(name, keys[0]) ==> Unclaimed(devices, keys[0]))
    ensures OwnsAt(devices, name, keys, k, i) <==> OwnsAt(devices, name, keys[1..], k - 1, i)
  {
    assert forall l :: 0 <= l < |keys[1..]| ==> keys[1..][l] == keys[l + 1];
    if OwnsAt(devices, name, keys[1..], k - 1, i) {
      forall l | 0 <= l < k && Contains(name, keys[l]) ensures Unclaimed(devices, keys[l]) {
        assert l > 0 ==> keys[l] == keys[1..][l - 1];
      }
    }
  }

  lemma OwnerByMac(devices: seq<DeviceRecord>, d: DeviceRecord, hex: string, key: string)
    requires ShellyHex(d.displayName) == Some(hex) && Borne(devices, key)
    requires key == hex || (key == hex[..10] && !Borne(devices, hex))
    ensures key in IndexOf(devices).macs && MatchedPrimary(IndexOf(devices), d) == Some(IndexOf(devices).macs[key])
    ensures forall i :: Owner(devices, d, i) <==> LastBearing(devices, key, i)
  {
    MacsAreLast(devices, hex);
    MacsAreLast(devices, hex[..10]);
  }

  lemma OwnerByModel(devices: seq<DeviceRecord>, d: DeviceRecord, hex: string)
    requires ShellyHex(d.displayName) == Some(hex) && !Borne(devices, hex) && !Borne(devices, hex[..10])
    ensures MatchedPrimary(IndexOf(devices), d) == ByModel(IndexOf(devices).models, Lower(d.displayName), MODELS)
    ensures forall i :: Owner(devices, d, i) <==> OwnsByModel(devices, Lower(d.displayName), MODELS, i)
  {
    MacsAreLast(devices, hex);
    MacsAreLast(devices, hex[..10]);
  }

  /** The matched primary is exactly the owner's id. */
  lemma PrimaryIsOwner(devices: seq<DeviceRecord>, d: DeviceRecord)
    ensures MatchedPrimary(IndexOf(devices), d).Some? <==> exists i :: Owner(devices, d, i)
    ensures forall i :: Owner(devices, d, i) ==> MatchedPrimary(IndexOf(devices), d) == Some(devices[i].deviceId)
  {
    var hex := ShellyHex(d.displayName);
    if hex == None {
      assert MatchedPrimary(IndexOf(devices), d) == None;
    } else if Borne(devices, hex.value) {
      OwnerByMac(devices, d, hex.value, hex.value);
      MacsAreLast(devices, hex.value);
    } else if Borne(devices, hex.value[..10]) {
      OwnerByMac(devices, d, hex.value, hex.value[..10]);
      MacsAreLast(devices, hex.value[..10]);
    } else {
      OwnerByModel(devices, d, hex.value);
      ByModelOwns(devices, Lower(d.displayName), MODELS);
    }
  }

  // ---- The links

  /** The id of a BLE device of the list whose owner is `k`. */
  ghost predicate PairedWith(all: seq<DeviceRecord>, devices: seq<DeviceRecord>, k: string, x: string) {
    exists j, i :: 0 <= j < |devices| && !OnNetwork(devices[j]) && devices[j].deviceId == x != k
      && Owner(all, devices[j], i) && all[i].deviceId == k
  }

  lemma PairedLater(all: seq<DeviceRecord>, devices: seq<DeviceRecord>, k: string, x: string)
    requires devices != [] && PairedWith(all, devices[..|devices| - 1], k, x)
    ensures PairedWith(all, devices, k, x)
  {
    var init := devices[..|devices| - 1];
    var j, i :| 0 <= j < |init| && !OnNetwork(init[j]) && init[j].deviceId == x != k
      && Owner(all, init[j], i) && all[i].deviceId == k;
    assert devices[j] == init[j];
  }

  lemma LastIsPaired(all: seq<DeviceRecord>, st: Linking, devices: seq<DeviceRecord>)
    requires devices != [] && GetsLink(IndexOf(all), st, devices[|devices| - 1])
    ensures var d := devices[|devices| - 1];
      PairedWith(all, devices, MatchedPrimary(IndexOf(all), d).value, d.deviceId)
  {
    var n := |devices| - 1;
    PrimaryIsOwner(all, devices[n]);
    var i :| Owner(all, devices[n], i);
    assert !OnNetwork(devices[n]);
  }

  /** Every new link goes from the owner of a BLE device of the list to that device. */
  lemma {:induction false} NewLinksAreOwners(
    all: seq<DeviceRecord>, links: Links, devices: seq<DeviceRecord>, k: string, x: string)
    requires Owns(LinkedUpTo(IndexOf(all), links, devices).links, k, x) && !Owns(links, k, x)
    ensures PairedWith(all, devices, k, x)
  {
    if devices != [] {
      var init, d := devices[..|devices| - 1], devices[|devices| - 1];
      var st := LinkedUpTo(IndexOf(all), links, init);
      if Owns(st.links, k, x) {
        NewLinksAreOwners(all, links, init, k, x);
        PairedLater(all, devices, k, x);
      } else {
        LastIsPaired(all, st, devices);
      }
    }
  }

  lemma LinksStay(index: Index, st: Linking, d: DeviceRecord, k: string, x: string)
    requires Owns(st.links, k, x)
    ensures Owns(Considered(index, st, d).links, k, x)
  {
  }

  lemma NotYetLinked(all: seq<DeviceRecord>, links: Links, devices: seq<DeviceRecord>, x: string)
    requires !Owned(links, x) && forall l :: 0 <= l < |devices| ==> devices[l].deviceId != x
    ensures var st := LinkedUpTo(IndexOf(all), links, devices); x !in st.linked && !Owned(st.links, x)
  {
    var st := LinkedUpTo(IndexOf(all), links, devices);
    LinkedUpToExtends(IndexOf(all), links, devices);
    if k :| Owns(st.links, k, x) {
      assert !Owns(links, k, x);
      NewLinksAreOwners(all, links, devices, k, x);
    }
  }

  lemma LinkIsMade(index: Index, st: Linking, d: DeviceRecord, p: string)
    requires !OnNetwork(d) && MatchedPrimary(index, d) == Some(p) && p != d.deviceId
    requires d.deviceId !in st.linked && !Owned(st.links, d.deviceId)
    ensures Owns(Considered(index, st, d).links, p, d.deviceId)
  {
    assert d.deviceId in ListOf(st.links, p) ==> Owns(st.links, p, d.deviceId);
  }

  lemma LastGetsLink(all: seq<DeviceRecord>, links: Links, devices: seq<DeviceRecord>, i: int)
    requires devices != [] && !OnNetwork(devices[|devices| - 1]) && Owner(all, devices[|devices| - 1], i)
    requires all[i].deviceId != devices[|devices| - 1].deviceId && !Owned(links, devices[|devices| - 1].deviceId)
    requires forall l :: 0 <= l < |devices| - 1 ==> devices[l].deviceId != devices[|devices| - 1].deviceId
    ensures Owns(LinkedUpTo(IndexOf(all), links, devices).links, all[i].deviceId, devices[|devices| - 1].deviceId)
  {
    var n := |devices| - 1;
    PrimaryIsOwner(all, devices[n]);
    NotYetLinked(all, links, devices[..n], devices[n].deviceId);
    LinkIsMade(IndexOf(all), LinkedUpTo(IndexOf(all), links, devices[..n]), devices[n], all[i].deviceId);
  }

  /** And every BLE device that was not linked gets the link from its owner. */
  lemma {:induction false} OwnersGetLinks(
    all: seq<DeviceRecord>, links: Links, devices: seq<DeviceRecord>, j: nat, i: int)
    requires j < |devices| && !OnNetwork(devices[j]) && Owner(all, devices[j], i)
    requires all[i].deviceId != devices[j].deviceId && !Owned(links, devices[j].deviceId)
    requires forall l :: 0 <= l < j ==> devices[l].deviceId != devices[j].deviceId
    ensures Owns(LinkedUpTo(IndexOf(all), links, devices).links, all[i].deviceId, devices[j].deviceId)
  {
    var n := |devices| - 1;
    if j < n {
      OwnersGetLinks(all, links, devices[..n], j, i);
      LinksStay(IndexOf(all), LinkedUpTo(IndexOf(all), links, devices[..n]), devices[n],
        all[i].deviceId, devices[j].deviceId);
    } else {
      LastGetsLink(all, links, devices, i);
    }
  }
}
