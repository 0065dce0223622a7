/** The supervisor's registry of modules and devices, written by many modules. */
module ControlRegistry {
  import opened Options

  datatype Manifest = Manifest(id: string, displayName: string, version: string, capabilities: seq<string>)

  datatype Health = Health(moduleId: string, state: int, message: string, updatedAt: int)

  datatype ModuleRuntime = ModuleRuntime(manifest: Option<Manifest>, health: Option<Health>, connected: bool)

  datatype DeviceRecord = DeviceRecord(
    moduleId: string, deviceId: string, displayName: string, kind: string,
    capabilities: seq<string>, metadata: map<string, string>)

  datatype Upsert = Upsert(moduleId: string, devices: seq<DeviceRecord>, replaceAll: bool)

  datatype Outcome = Ok | InvalidArgument(message: string) | NotFound | AlreadyExists

  type Modules = map<string, ModuleRuntime>
  type Devices = map<(string, string), DeviceRecord>

  datatype State = State(modules: Modules, devices: Devices)

  const EMPTY: State := State(map[], map[])

  const KNOWN_MODULE_IDS: seq<string> := [
    "web", "matter-controller", "matter-bridge", "network-discovery", "bthome", "philips-hue", "tuya",
    "shelly", "govee", "zigbee", "switchbot", "native-devices", "ai-local", "extensions"]

  predicate IsKnownModule(id: string) {
    id in KNOWN_MODULE_IDS
  }

  // ---- The calls

  datatype Call =
    | Register(manifest: Option<Manifest>, initialHealth: Option<Health>)
    | Report(health: Health)
    | Replace(request: Upsert)
    | Disconnect(moduleId: string, message: string, now: int)

  function Registered(s: State, manifest: Option<Manifest>, health: Option<Health>): (State, Outcome) {
    if manifest.None? then (s, InvalidArgument("missing manifest"))
    else if health.None? then (s, InvalidArgument("missing initial health"))
    else if manifest.value.id != health.value.moduleId then
      (s, InvalidArgument("manifest.id and initial_health.module_id must match"))
    else if !IsKnownModule(manifest.value.id) then (s, InvalidArgument("unknown module id"))
    else if manifest.value.id in s.modules then (s, AlreadyExists)
    else (s.(modules := s.modules[manifest.value.id := ModuleRuntime(manifest, health, true)]), Ok)
  }

  function Reported(s: State, health: Health): (State, Outcome) {
    if health.moduleId !in s.modules then (s, NotFound)
    else
      var runtime := s.modules[health.moduleId].(health := Some(health), connected := true);
      (s.(modules := s.modules[health.moduleId := runtime]), Ok)
  }

  function WithoutModule(m: Devices, id: string): Devices {
    map k | k in m && k.0 != id :: m[k]
  }

  /** The devices of a request that come before the first one of another module. */
  function OwnPrefix(devices: seq<DeviceRecord>, id: string): (r: seq<DeviceRecord>)
  {
    if devices == [] || devices[0].moduleId != id then []
    else [devices[0]] + OwnPrefix(devices[1..], id)
  }

  function Inserted(m: Devices, devices: seq<DeviceRecord>): Devices {
    if devices == [] then m
    else
      var d := devices[|devices| - 1];
      Inserted(m, devices[..|devices| - 1])[(d.moduleId, d.deviceId) := d]
  }

  const FOREIGN: Outcome := InvalidArgument("device.module_id must match request.module_id")

  /** A request with a foreign device is rejected, but the devices before it have been stored by then. */
  function Replaced(s: State, request: Upsert): (State, Outcome) {
    if request.moduleId !in s.modules then (s, NotFound)
    else
      var base := if request.replaceAll then WithoutModule(s.devices, request.moduleId) else s.devices;
      var own := OwnPrefix(request.devices, request.moduleId);
      (s.(devices := Inserted(base, own)), if |own| == |request.devices| then Ok else FOREIGN)
  }

  function Disconnected(s: State, id: string, message: string, now: int): State {
    if id !in s.modules then s
    else
      var runtime := s.modules[id];
      var health := match runtime.health
        case Some(h) => Some(h.(message := message, updatedAt := now))
        case None => None;
      s.(modules := s.modules[id := ModuleRuntime(runtime.manifest, health, false)])
  }

  function Applied(s: State, c: Call): (State, Outcome) {
    match c
    case Register(manifest, health) => Registered(s, manifest, health)
    case Report(health) => Reported(s, health)
    case Replace(request) => Replaced(s, request)
    case Disconnect(id, message, now) => (Disconnected(s, id, message, now), Ok)
  }

  lemma InsertedNext(m: Devices, devices: seq<DeviceRecord>, i: nat)
    requires i < |devices|
    ensures devices[..i + 1] == devices[..i] + [devices[i]]
    ensures Inserted(m, devices[..i + 1]) ==
      Inserted(m, devices[..i])[(devices[i].moduleId, devices[i].deviceId) := devices[i]]
  {
    assert devices[..i + 1][..i] == devices[..i];
  }

  lemma OwnPrefixAt(devices: seq<DeviceRecord>, id: string, i: nat)
    requires i < |devices| && OwnPrefix(devices, id) == devices[..i] + OwnPrefix(devices[i..], id)
    ensures devices[i].moduleId != id ==> OwnPrefix(devices, id) == devices[..i]
    ensures devices[i].moduleId == id ==> OwnPrefix(devices, id) == devices[..i + 1] + OwnPrefix(devices[i + 1..], id)
  {
    assert devices[i..][0] == devices[i] && devices[i..][1..] == devices[i + 1..];
    assert devices[..i + 1] == devices[..i] + [devices[i]];
  }

  class RuntimeState {
    var modules: Modules
    var devices: Devices

    constructor ()
      ensures Value() == EMPTY
    {
      modules, devices := map[], map[];
    }

    function Value(): State
      reads this
    {
      State(modules, devices)
    }

    method RegisterModule(manifest: Option<Manifest>, initialHealth: Option<Health>) returns (r: Outcome)
      modifies this
      ensures (Value(), r) == Registered(old(Value()), manifest, initialHealth)
    {
      if manifest.None? {
        return InvalidArgument("missing manifest");
      }
      if initialHealth.None? {
        return InvalidArgument("missing initial health");
      }
      var id := manifest.value.id;
      if id != initialHealth.value.moduleId {
        return InvalidArgument("manifest.id and initial_health.module_id must match");
      }
      if !IsKnownModule(id) {
        return InvalidArgument("unknown module id");
      }
      if id in modules {
        return AlreadyExists;
      }
      modules := modules[id := ModuleRuntime(manifest, initialHealth, true)];
      return Ok;
    }

    method UpdateHealth(health: Health) returns (r: Outcome)
      modifies this
      ensures (Value(), r) == Reported(old(Value()), health)
    {
      if health.moduleId !in modules {
        return NotFound;
      }
      modules := modules[health.moduleId := modules[health.moduleId].(health := Some(health), connected := true)];
      return Ok;
    }

    method ReplaceDevices(request: Upsert) returns (r: Outcome)
      modifies this
      ensures (Value(), r) == Replaced(old(Value()), request)
    {
      if request.moduleId !in modules {
        return NotFound;
      }
      if request.replaceAll {
        devices := map k | k in devices && k.0 != request.moduleId :: devices[k];
      }
      r := InsertDevices(request);
    }

    /** Inserts devices one by one, up to the first that belongs to another module. */
    method InsertDevices(request: Upsert) returns (r: Outcome)
      modifies this`devices
      ensures var own := OwnPrefix(request.devices, request.moduleId);
        devices == Inserted(old(devices), own) && r == (if |own| == |request.devices| then Ok else FOREIGN)
    {
      ghost var own := OwnPrefix(request.devices, request.moduleId);
      assert request.devices[..0] == [];
      for i := 0 to |request.devices|
        invariant devices == Inserted(old(devices), request.devices[..i])
        invariant own == request.devices[..i] + OwnPrefix(request.devices[i..], request.moduleId)
      {
        var device := request.devices[i];
        OwnPrefixAt(request.devices, request.moduleId, i);
        if device.moduleId != request.moduleId {
          return InvalidArgument("device.module_id must match request.module_id");
        }
        InsertedNext(old(devices), request.devices, i);
        devices := devices[(device.moduleId, device.deviceId) := device];
      }
      assert own == request.devices[..|request.devices|] == request.devices;
      return Ok;
    }

    method MarkDisconnected(moduleId: string, message: string, now: int)
      modifies this
      ensures Value() == Disconnected(old(Value()), moduleId, message, now)
    {
      if moduleId in modules {
        var runtime := modules[moduleId].(connected := false);
        if runtime.health.Some? {
          runtime := runtime.(health := Some(runtime.health.value.(message := message, updatedAt := now)));
        }
        modules := modules[moduleId := runtime];
      }
    }
  }

  // ---- Runs

  function Run(s: State, calls: seq<Call>): State {
    if calls == [] then s else Applied(Run(s, calls[..|calls| - 1]), calls[|calls| - 1]).0
  }

  /** The module a call speaks for. */
  function Speaker(c: Call): Option<string> {
    match c
    case Register(manifest, health) => if manifest.Some? then Some(manifest.value.id) else None
    case Report(health) => Some(health.moduleId)
    case Replace(request) => Some(request.moduleId)
    case Disconnect(id, _, _) => Some(id)
  }

  function CallsOf(calls: seq<Call>, id: string): seq<Call> {
    if calls == [] then []
    else
      var c := calls[|calls| - 1];
      CallsOf(calls[..|calls| - 1], id) + if Speaker(c) == Some(id) then [c] else []
  }

  /** What the registry holds on behalf of one module. */
  datatype View = View(runtime: Option<ModuleRuntime>, devices: Devices)

  function DevicesOf(m: Devices, id: string): Devices {
    map k | k in m && k.0 == id :: m[k]
  }

  function ViewOf(s: State, id: string): View {
    View(if id in s.modules then Some(s.modules[id]) else None, DevicesOf(s.devices, id))
  }

  /** Every device is filed under its own ids, and its owner is a registered, known module. */
  ghost predicate Sound(s: State) {
    && (forall id :: id in s.modules ==> IsKnownModule(id))
    && (forall k :: k in s.devices ==> k.0 in s.modules && k == (s.devices[k].moduleId, s.devices[k].deviceId))
  }

  lemma {:induction false} OwnPrefixIsPrefix(devices: seq<DeviceRecord>, id: string)
    ensures OwnPrefix(devices, id) <= devices
    ensures forall d :: d in OwnPrefix(devices, id) ==> d.moduleId == id
    ensures |OwnPrefix(devices, id)| < |devices| ==> devices[|OwnPrefix(devices, id)|].moduleId != id
  {
    if devices != [] && devices[0].moduleId == id {
      OwnPrefixIsPrefix(devices[1..], id);
      assert devices == [devices[0]] + devices[1..];
    }
  }

  /** Under each key of the inserted devices the last of them wins; other keys stay. */
  lemma {:induction false} InsertedLastWins(m: Devices, devices: seq<DeviceRecord>)
    ensures forall d :: d in devices ==> (d.moduleId, d.deviceId) in Inserted(m, devices)
    ensures forall k :: k in Inserted(m, devices) ==>
      (k in m && Inserted(m, devices)[k] == m[k] && forall d :: d in devices ==> (d.moduleId, d.deviceId) != k)
      || LastUnder(devices, k, Inserted(m, devices)[k])
    ensures forall k :: k in m ==> k in Inserted(m, devices)
  {
    if devices != [] {
      var n := |devices| - 1;
      var init, d := devices[..n], devices[n];
      InsertedLastWins(m, init);
      assert devices == init + [d];
      forall k | k in Inserted(m, devices)
        ensures (k in m && Inserted(m, devices)[k] == m[k] && forall e :: e in devices ==> (e.moduleId, e.deviceId) != k)
          || LastUnder(devices, k, Inserted(m, devices)[k])
      {
        if k == (d.moduleId, d.deviceId) {
          assert LastUnderAt(devices, k, d, n);
        } else if LastUnder(init, k, Inserted(m, devices)[k]) {
          var i :| LastUnderAt(init, k, Inserted(m, devices)[k], i);
          assert LastUnderAt(devices, k, Inserted(m, devices)[k], i);
        }
      }
    }
  }

  ghost predicate LastUnder(devices: seq<DeviceRecord>, k: (string, string), d: DeviceRecord) {
    exists i :: LastUnderAt(devices, k, d, i)
  }

  ghost predicate LastUnderAt(devices: seq<DeviceRecord>, k: (string, string), d: DeviceRecord, i: int) {
    && 0 <= i < |devices| && devices[i] == d && (d.moduleId, d.deviceId) == k
    && forall j :: i < j < |devices| ==> (devices[j].moduleId, devices[j].deviceId) != k
  }

  lemma {:induction false} InsertedIsFiled(m: Devices, devices: seq<DeviceRecord>, id: string)
    requires forall d :: d in devices ==> d.moduleId == id
    ensures forall k :: k in Inserted(m, devices) ==>
      (k in m && Inserted(m, devices)[k] == m[k])
      || (k.0 == id && k == (Inserted(m, devices)[k].moduleId, Inserted(m, devices)[k].deviceId))
  {
    if devices != [] {
      var n := |devices| - 1;
      assert forall d :: d in devices[..n] ==> d in devices;
      assert devices[n] in devices;
      InsertedIsFiled(m, devices[..n], id);
    }
  }

  /** Inserting devices of one module changes the view of that module only, and there only on top of itself. */
  lemma {:induction false} InsertedIsLocal(m: Devices, devices: seq<DeviceRecord>, id: string, other: string)
    requires forall d :: d in devices ==> d.moduleId == id
    ensures DevicesOf(Inserted(m, devices), other) ==
      if other == id then Inserted(DevicesOf(m, other), devices) else DevicesOf(m, other)
  {
    if devices != [] {
      var n := |devices| - 1;
      assert forall d :: d in devices[..n] ==> d in devices;
      assert devices[n] in devices;
      InsertedIsLocal(m, devices[..n], id, other);
    }
  }

  // ---- Main results

  lemma CallStaysSound(s: State, c: Call)
    requires Sound(s)
    ensures Sound(Applied(s, c).0)
  {
    if c.Replace? && c.request.moduleId in s.modules {
      var id := c.request.moduleId;
      var base := if c.request.replaceAll then WithoutModule(s.devices, id) else s.devices;
      OwnPrefixIsPrefix(c.request.devices, id);
      InsertedIsFiled(base, OwnPrefix(c.request.devices, id), id);
    }
  }

  /** Over any run from the empty registry, every device belongs to a registered, known module. */
  lemma {:induction false} RunsStaySound(calls: seq<Call>)
    ensures Sound(Run(EMPTY, calls))
  {
    if calls != [] {
      RunsStaySound(calls[..|calls| - 1]);
      CallStaysSound(Run(EMPTY, calls[..|calls| - 1]), calls[|calls| - 1]);
    }
  }

  /** A call of one module leaves every other module's view alone. */
  lemma ForeignCallsAreInvisible(s: State, c: Call, id: string)
    requires Speaker(c) != Some(id)
    ensures ViewOf(Applied(s, c).0, id) == ViewOf(s, id)
  {
    if c.Replace? && c.request.moduleId in s.modules {
      var from := c.request.moduleId;
      var base := if c.request.replaceAll then WithoutModule(s.devices, from) else s.devices;
      OwnPrefixIsPrefix(c.request.devices, from);
      InsertedIsLocal(base, OwnPrefix(c.request.devices, from), from, id);
      assert DevicesOf(WithoutModule(s.devices, from), id) == DevicesOf(s.devices, id);
    }
  }

  /** A call's verdict and its effect on its own module depend on that module's view only. */
  lemma OwnCallsSeeTheirView(s: State, t: State, c: Call, id: string)
    requires Speaker(c) == Some(id) && ViewOf(s, id) == ViewOf(t, id)
    ensures ViewOf(Applied(s, c).0, id) == ViewOf(Applied(t, c).0, id)
    ensures Applied(s, c).1 == Applied(t, c).1
  {
    assert id in s.modules <==> id in t.modules;
    if c.Replace? && id in s.modules {
      var own := OwnPrefix(c.request.devices, id);
      OwnPrefixIsPrefix(c.request.devices, id);
      if c.request.replaceAll {
        InsertedIsLocal(WithoutModule(s.devices, id), own, id, id);
        InsertedIsLocal(WithoutModule(t.devices, id), own, id, id);
        assert DevicesOf(WithoutModule(s.devices, id), id) == map[] == DevicesOf(WithoutModule(t.devices, id), id);
      } else {
        InsertedIsLocal(s.devices, own, id, id);
        InsertedIsLocal(t.devices, own, id, id);
      }
    }
  }

  /** Modules do not interfere: what the registry holds for a module depends on that module's own calls only. */
  lemma {:induction false} ModulesDoNotInterfere(s: State, calls: seq<Call>, id: string)
    ensures ViewOf(Run(s, calls), id) == ViewOf(Run(s, CallsOf(calls, id)), id)
  {
    if calls != [] {
      var init, c := calls[..|calls| - 1], calls[|calls| - 1];
      ModulesDoNotInterfere(s, init, id);
      if Speaker(c) == Some(id) {
        var own := CallsOf(calls, id);
        assert own[..|own| - 1] == CallsOf(init, id);
        OwnCallsSeeTheirView(Run(s, init), Run(s, CallsOf(init, id)), c, id);
      } else {
        ForeignCallsAreInvisible(Run(s, init), c, id);
        assert CallsOf(calls, id) == CallsOf(init, id);
      }
    }
  }

  /** States with equal views of every module are equal. */
  lemma ViewsDetermineState(s: State, t: State)
    requires forall id :: ViewOf(s, id) == ViewOf(t, id)
    ensures s == t
  {
    forall id ensures id in s.modules <==> id in t.modules
    ensures id in s.modules ==> s.modules[id] == t.modules[id] {
      assert ViewOf(s, id).runtime == ViewOf(t, id).runtime;
    }
    assert s.modules == t.modules;
    forall k: (string, string) ensures k in s.devices <==> k in t.devices
    ensures k in s.devices ==> s.devices[k] == t.devices[k] {
      assert ViewOf(s, k.0).devices == ViewOf(t, k.0).devices;
      assert k in s.devices <==> k in ViewOf(s, k.0).devices;
      assert k in t.devices <==> k in ViewOf(t, k.0).devices;
    }
    assert s.devices == t.devices;
  }

  /** Calls of different modules commute: same registry, same verdicts, in either order. */
  lemma CallsCommute(s: State, c: Call, d: Call)
    requires Speaker(c).None? || Speaker(d).None? || Speaker(c) != Speaker(d)
    ensures Applied(Applied(s, c).0, d).0 == Applied(Applied(s, d).0, c).0
    ensures Applied(Applied(s, c).0, d).1 == Applied(s, d).1
    ensures Applied(Applied(s, d).0, c).1 == Applied(s, c).1
  {
    if Speaker(c).Some? && Speaker(d).Some? {
      var cd, dc := Applied(Applied(s, c).0, d).0, Applied(Applied(s, d).0, c).0;
      ForeignCallsAreInvisible(s, c, Speaker(d).value);
      ForeignCallsAreInvisible(s, d, Speaker(c).value);
      OwnCallsSeeTheirView(Applied(s, c).0, s, d, Speaker(d).value);
      OwnCallsSeeTheirView(Applied(s, d).0, s, c, Speaker(c).value);
      forall id ensures ViewOf(cd, id) == ViewOf(dc, id) {
        if Speaker(d) != Some(id) { ForeignCallsAreInvisible(Applied(s, c).0, d, id); ForeignCallsAreInvisible(s, d, id); }
        if Speaker(c) != Some(id) { ForeignCallsAreInvisible(Applied(s, d).0, c, id); ForeignCallsAreInvisible(s, c, id); }
      }
      ViewsDetermineState(cd, dc);
    }
  }

  /**
   A successful replace_all leaves the module exactly the devices of the request, the last of
   several with one id winning.
   */
  lemma ReplaceAllLeavesExactly(s: State, request: Upsert)
    requires Applied(s, Replace(request)).1 == Ok && request.replaceAll
    ensures var devs := DevicesOf(Applied(s, Replace(request)).0.devices, request.moduleId);
      && (forall d :: d in request.devices ==> (d.moduleId, d.deviceId) in devs)
      && (forall k :: k in devs ==> LastUnder(request.devices, k, devs[k]))
  {
    var id := request.moduleId;
    OwnPrefixIsPrefix(request.devices, id);
    assert OwnPrefix(request.devices, id) == request.devices;
    InsertedIsLocal(WithoutModule(s.devices, id), request.devices, id, id);
    assert DevicesOf(WithoutModule(s.devices, id), id) == map[];
    InsertedLastWins(map[], request.devices);
  }

  /**
   An upsert is accepted if and only if its module is registered and every device names that module. A
   rejected one is not undone: it leaves what an accepted request with only the devices before the first
   foreign one would have left.
   */
  lemma RejectedUpsertAppliesItsPrefix(s: State, request: Upsert)
    ensures var (s', r) := Applied(s, Replace(request));
      && (r == Ok <==> request.moduleId in s.modules && forall d :: d in request.devices ==> d.moduleId == request.moduleId)
      && (request.moduleId !in s.modules ==> s' == s)
      && (request.moduleId in s.modules ==>
          (s', Ok) == Applied(s, Replace(request.(devices := OwnPrefix(request.devices, request.moduleId)))))
  {
    var id := request.moduleId;
    var own := OwnPrefix(request.devices, id);
    OwnPrefixIsPrefix(request.devices, id);
    AllOwnIsWhole(own, id);
    if |own| == |request.devices| {
      assert own == request.devices;
    } else {
      assert request.devices[|own|] in request.devices;
    }
  }

  lemma {:induction false} AllOwnIsWhole(devices: seq<DeviceRecord>, id: string)
    requires forall d :: d in devices ==> d.moduleId == id
    ensures OwnPrefix(devices, id) == devices
  {
    if devices != [] {
      assert devices[0] in devices && forall d :: d in devices[1..] ==> d in devices;
      AllOwnIsWhole(devices[1..], id);
    }
  }
}
