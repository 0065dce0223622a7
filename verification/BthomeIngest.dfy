/**
 The ingest loop: it parses and deduplicates advertisements one after another and keeps counters,
 telemetry and a bounded log of recent events.
 */
module BthomeIngest {
  import opened Options
  import opened Octets
  import opened Text
  import opened BthomeParser
  import Dedup = BthomeDedup

  /** An advertisement reported by a gateway, with the moment it is processed. */
  datatype Item = Item(
    mac: string, gateway: string, gatewayId: Option<string>, gatewayIp: Option<string>,
    rssi: int, payload: seq<byte>, button: Option<ButtonEventType>, now: nat)

  /** What is fixed while items are processed. */
  datatype Config = Config(
    window: nat, hash: seq<byte> -> nat, minRssi: int, ignored: string -> bool, names: map<string, string>)

  /** The metadata kept for a device; readings are kept as numbers, the constant entries are left out. */
  datatype Telemetry = Telemetry(
    mac: string, gateway: string, rssi: int, lastSeen: nat, category: string,
    battery: Option<byte>, buttonEvent: Option<string>, buttonRaw: Option<ButtonEventType>,
    contactOpen: Option<bool>, motion: Option<bool>,
    temperature: Option<int>, humidity: Option<int>, illuminance: Option<int>)

  const BLANK: Telemetry := Telemetry("", "", 0, 0, "", None, None, None, None, None, None, None, None)

  datatype Event = Event(
    timestamp: nat, mac: string, deviceName: string, eventType: string, description: string, gateway: string,
    gatewayId: Option<string>, gatewayIp: Option<string>, rssi: int, battery: Option<byte>, details: Telemetry)

  /** A device record sent to the supervisor. */
  datatype Sent = Sent(deviceId: string, displayName: string, kind: string, capabilities: seq<string>, metadata: Telemetry)

  datatype State = State(
    entries: Dedup.Entries, received: nat, deduplicated: nat, processed: nat,
    telemetry: map<string, Telemetry>, events: seq<Event>, known: map<string, string>, sent: seq<Sent>)

  const START: State := State(map[], 0, 0, 0, map[], [], map[], [])

  const LOG_LIMIT := 100
  const BATTERY_UPDATE := "battery_update"

  // ---- Names and texts

  function MacClean(mac: string): string {
    Without(Norm(mac), {':', '-'})
  }

  function MacSuffix(mac: string): string {
    var clean := MacClean(mac);
    if |clean| >= 4 then clean[|clean| - 4..] else clean
  }

  function DeviceId(mac: string): string {
    "bthome-" + MacClean(mac)
  }

  /** The event type and description of a button event. */
  function ButtonTexts(e: ButtonEventType): (string, string) {
    match e
    case Press => ("press", "Single Press")
    case DoublePress => ("double_press", "Double Press")
    case TriplePress => ("triple_press", "Triple Press")
    case LongPress => ("long_press", "Long Press")
    case LongDoublePress => ("long_double_press", "Long Double Press")
    case LongTriplePress => ("long_triple_press", "Long Triple Press")
    case Hold => ("hold", "Hold")
    case _ => ("unknown", "Button Action")
  }

  function NameOr(cfg: Config, mac: string, default: string): string {
    if Norm(mac) in cfg.names then cfg.names[Norm(mac)] else default
  }

  // ---- The event log

  /** Pushes in front and drops from the back; without a limit nothing is dropped. */
  function Pushed(events: seq<Event>, e: Event, limit: Option<nat>): seq<Event> {
    Newest([e] + events, limit)
  }

  function Newest(events: seq<Event>, limit: Option<nat>): seq<Event> {
    if limit.Some? && |events| > limit.value then events[..limit.value] else events
  }

  /** Is there a battery update of the device among the newest five events? */
  predicate RecentBattery(events: seq<Event>, mac: string) {
    exists i :: 0 <= i < |events| && i < 5 && events[i].mac == mac && events[i].eventType == BATTERY_UPDATE
  }

  // ---- One item

  function OrElse<T>(a: Option<T>, b: Option<T>): Option<T> {
    if a.Some? then a else b
  }

  /** New metadata laid over what was known: readings that are absent keep their last value. */
  function Laid(patch: Telemetry, t: Telemetry): Telemetry {
    Telemetry(
      patch.mac, patch.gateway, patch.rssi, patch.lastSeen, patch.category,
      OrElse(patch.battery, t.battery),
      OrElse(patch.buttonEvent, t.buttonEvent),
      OrElse(patch.buttonRaw, t.buttonRaw),
      OrElse(patch.contactOpen, t.contactOpen),
      OrElse(patch.motion, t.motion),
      OrElse(patch.temperature, t.temperature),
      OrElse(patch.humidity, t.humidity),
      OrElse(patch.illuminance, t.illuminance))
  }

  function KindOf(ms: seq<Measurement>): string {
    if First(ms, MotionOf).Some? then "motion-sensor"
    else if First(ms, DoorWindowOf).Some? then "contact-sensor"
    else if First(ms, ButtonEventOf).Some? then "button"
    else "sensor"
  }

  function DefaultName(ms: seq<Measurement>, mac: string): string {
    DefaultPrefix(ms) + MacSuffix(mac)
  }

  function DefaultPrefix(ms: seq<Measurement>): string {
    if First(ms, MotionOf).Some? then "Shelly BLU Motion "
    else if First(ms, DoorWindowOf).Some? then "Shelly BLU Door/Window "
    else if First(ms, ButtonEventOf).Some? then "Shelly BLU Button "
    else "BTHome Sensor "
  }

  function If(holds: bool, name: string): seq<string> {
    if holds then [name] else []
  }

  function CapabilitiesOf(ms: seq<Measurement>): seq<string> {
    ["ble", "bthome"]
    + If(First(ms, BatteryOf).Some?, "battery")
    + If(First(ms, ButtonEventOf).Some?, "button")
    + If(First(ms, DoorWindowOf).Some?, "contact-sensor")
    + If(First(ms, MotionOf).Some?, "motion-sensor")
    + If(First(ms, TemperatureOf).Some?, "temperature")
    + If(First(ms, HumidityOf).Some?, "humidity")
    + If(First(ms, IlluminanceOf).Some?, "illuminance")
  }

  /** Motion that ends raises no event of its own, so an earlier one of the packet stands. */
  function LiveEvent(ms: seq<Measurement>): Option<(string, string)> {
    if First(ms, MotionOf) == Some(true) then Some(("motion_detected", "Motion Detected"))
    else match First(ms, DoorWindowOf)
      case Some(open) => Some(if open then ("door_opened", "Door/Window Opened") else ("door_closed", "Door/Window Closed"))
      case None =>
        match First(ms, ButtonEventOf)
        case Some(e) => Some(ButtonTexts(e))
        case None => None
  }

  /** All that an item stands for before the state is consulted. */
  datatype Prepared = Prepared(
    dropped: bool, packet: Dedup.Packet, item: Item, mac: string, deviceId: string, name: string, kind: string,
    capabilities: seq<string>, live: Option<(string, string)>, patch: Telemetry)

  function EventOf(p: Prepared, eventType: string, description: string, t: Telemetry): Event {
    Event(p.item.now, p.mac, p.name, eventType, description, p.item.gateway, p.item.gatewayId, p.item.gatewayIp,
      p.item.rssi, t.battery, t)
  }

  /** What an accepted packet adds to the event log. */
  function Logged(events: seq<Event>, p: Prepared, t: Telemetry, limit: Option<nat>): seq<Event> {
    if p.live.Some? then Pushed(events, EventOf(p, p.live.value.0, p.live.value.1, t), limit)
    else if t.battery.Some? && !RecentBattery(events, p.mac) then
      Pushed(events, EventOf(p, BATTERY_UPDATE, "Battery", t), limit)
    else events
  }

  function Accepted(s: State, p: Prepared, limit: Option<nat>): State {
    var t := Laid(p.patch, if p.mac in s.telemetry then s.telemetry[p.mac] else BLANK);
    s.(processed := s.processed + 1,
       telemetry := s.telemetry[p.mac := t],
       events := Logged(s.events, p, t, limit),
       known := s.known[p.mac := p.name],
       sent := s.sent + [Sent(p.deviceId, p.name, p.kind, p.capabilities, t)])
  }

  /** One turn of the loop, with the log limit as an argument. */
  function Turn(window: nat, s: State, p: Prepared, limit: Option<nat>): State {
    if p.dropped then s.(received := s.received + 1)
    else
      var (entries, duplicate) := Dedup.Step(window, s.entries, p.packet);
      if duplicate then s.(received := s.received + 1, entries := entries, deduplicated := s.deduplicated + 1)
      else Accepted(s.(received := s.received + 1, entries := entries), p, limit)
  }

  function Run(window: nat, s: State, ps: seq<Prepared>, limit: Option<nat>): State {
    if ps == [] then s
    else Turn(window, Run(window, s, ps[..|ps| - 1], limit), ps[|ps| - 1], limit)
  }

  // ---- Preparing an item

  /** Too weak, on the ignore list, or without a payload: the item is dropped before deduplication. */
  predicate IsDropped(cfg: Config, item: Item) {
    || item.rssi < cfg.minRssi
    || cfg.ignored(Norm(item.mac)) || cfg.ignored(DeviceId(item.mac))
    || (item.button.None? && Parse(item.payload).EmptyPayload?)
  }

  function Readings(item: Item): seq<Measurement> {
    match Parse(item.payload)
    case Parsed(packet) => packet.measurements
    case EmptyPayload => []
  }

  function ButtonPatch(item: Item, e: ButtonEventType): Telemetry {
    Telemetry(Norm(item.mac), item.gateway, item.rssi, item.now, "button",
      None, Some(ButtonTexts(e).0), None, None, None, None, None, None)
  }

  function SensorPatch(item: Item, ms: seq<Measurement>): Telemetry {
    var button := First(ms, ButtonEventOf);
    Telemetry(
      Norm(item.mac), item.gateway, item.rssi, item.now, KindOf(ms),
      First(ms, BatteryOf),
      if button.Some? then Some(ButtonTexts(button.value).0) else None, button,
      First(ms, DoorWindowOf), First(ms, MotionOf),
      First(ms, TemperatureOf), First(ms, HumidityOf), First(ms, IlluminanceOf))
  }

  function PreparedButton(cfg: Config, item: Item, e: ButtonEventType): Prepared {
    Prepared(
      IsDropped(cfg, item),
      Dedup.Packet(Dedup.KeyFor(cfg.hash, Norm(item.mac), None, [ButtonByte(e)]), item.now, item.rssi, item.gateway),
      item, Norm(item.mac), DeviceId(item.mac), NameOr(cfg, item.mac, "Shelly BLU Button " + MacSuffix(item.mac)),
      "button", ["ble", "bthome", "button", "battery"], Some(ButtonTexts(e)), ButtonPatch(item, e))
  }

  function PreparedPacket(cfg: Config, item: Item, ms: seq<Measurement>): Prepared {
    Prepared(
      IsDropped(cfg, item),
      Dedup.Packet(Dedup.KeyFor(cfg.hash, item.mac, First(ms, PacketIdOf), item.payload), item.now, item.rssi, item.gateway),
      item, Norm(item.mac), DeviceId(item.mac), NameOr(cfg, item.mac, DefaultName(ms, item.mac)),
      KindOf(ms), CapabilitiesOf(ms), LiveEvent(ms), SensorPatch(item, ms))
  }

  function Prepare(cfg: Config, item: Item): Prepared {
    match item.button
    case Some(e) => PreparedButton(cfg, item, e)
    case None => PreparedPacket(cfg, item, Readings(item))
  }

  function PreparedAll(cfg: Config, items: seq<Item>): (ps: seq<Prepared>)
    ensures |ps| == |items|
  {
    seq(|items|, i requires 0 <= i < |items| => Prepare(cfg, items[i]))
  }

  // ---- The loop

  class AppState {
    const cfg: Config
    const dedup: Dedup.BTHomeDedup
    var received: nat
    var deduplicated: nat
    var processed: nat
    var telemetry: map<string, Telemetry>
    var recentEvents: seq<Event>
    var knownDevices: map<string, string>
    var upserts: seq<Sent>

    constructor (cfg: Config)
      ensures this.cfg == cfg && Valid() && fresh(dedup) && Value() == START
    {
      this.cfg := cfg;
      dedup := new Dedup.BTHomeDedup(cfg.window, cfg.hash);
      received, deduplicated, processed := 0, 0, 0;
      telemetry, recentEvents, knownDevices, upserts := map[], [], map[], [];
    }

    ghost predicate Valid() {
      dedup.window == cfg.window && dedup.hash == cfg.hash
    }

    function Value(): State
      reads this, dedup
    {
      State(dedup.records, received, deduplicated, processed, telemetry, recentEvents, knownDevices, upserts)
    }

    method PushEvent(e: Event)
      modifies this`recentEvents
      ensures recentEvents == Pushed(old(recentEvents), e, Some(LOG_LIMIT))
    {
      recentEvents := [e] + recentEvents;
      while |recentEvents| > LOG_LIMIT
        invariant Newest(recentEvents, Some(LOG_LIMIT)) == Pushed(old(recentEvents), e, Some(LOG_LIMIT))
        decreases |recentEvents|
      {
        recentEvents := recentEvents[..|recentEvents| - 1];
      }
    }

    /** Records an accepted packet: telemetry, events, the known device and the upsert. */
    method Accept(p: Prepared)
      modifies this
      ensures Value() == Accepted(old(Value()), p, Some(LOG_LIMIT))
    {
      processed := processed + 1;
      var t := Laid(p.patch, if p.mac in telemetry then telemetry[p.mac] else BLANK);
      telemetry := telemetry[p.mac := t];
      if p.live.Some? {
        PushEvent(EventOf(p, p.live.value.0, p.live.value.1, t));
      } else if t.battery.Some? {
        if !RecentBattery(recentEvents, p.mac) {
          PushEvent(EventOf(p, BATTERY_UPDATE, "Battery", t));
        }
      }
      knownDevices := knownDevices[p.mac := p.name];
      upserts := upserts + [Sent(p.deviceId, p.name, p.kind, p.capabilities, t)];
    }

    /** Deduplicates a packet that was not dropped and records it if it is new. */
    method Deduplicate(ghost before: State, p: Prepared, mac: string, packetId: Option<byte>, payload: seq<byte>)
      returns (wasDuplicate: bool)
      requires Valid() && Value() == before.(received := before.received + 1) && !p.dropped
      requires p.packet == Dedup.Packet(Dedup.KeyFor(cfg.hash, mac, packetId, payload), p.item.now, p.item.rssi, p.item.gateway)
      modifies this, dedup
      ensures Value() == Turn(cfg.window, before, p, Some(LOG_LIMIT))
      ensures processed == before.processed + if wasDuplicate then 0 else 1
      ensures deduplicated == before.deduplicated + if wasDuplicate then 1 else 0
    {
      wasDuplicate := dedup.IsDuplicate(mac, packetId, payload, p.item.rssi, p.item.gateway, p.item.now);
      if wasDuplicate {
        deduplicated := deduplicated + 1;
      } else {
        Accept(p);
      }
    }

    /** One turn of the loop. */
    method ProcessItem(item: Item) returns (wasProcessed: bool, wasDuplicate: bool)
      requires Valid()
      modifies this, dedup
      ensures Value() == Turn(cfg.window, old(Value()), Prepare(cfg, item), Some(LOG_LIMIT))
      ensures processed == old(processed) + if wasProcessed then 1 else 0
      ensures deduplicated == old(deduplicated) + if wasDuplicate then 1 else 0
    {
      ghost var before := Value();
      received := received + 1;
      if item.rssi < cfg.minRssi {
        return false, false;
      }
      if cfg.ignored(Norm(item.mac)) || cfg.ignored(DeviceId(item.mac)) {
        return false, false;
      }
      if item.button.Some? {
        var e := item.button.value;
        wasDuplicate := Deduplicate(before, PreparedButton(cfg, item, e), Norm(item.mac), None, [ButtonByte(e)]);
        return !wasDuplicate, wasDuplicate;
      }
      wasProcessed, wasDuplicate := ProcessPayload(before, item);
    }

    /** An item that carries a payload. */
    method ProcessPayload(ghost before: State, item: Item) returns (wasProcessed: bool, wasDuplicate: bool)
      requires Valid() && Value() == before.(received := before.received + 1)
      requires item.button.None? && item.rssi >= cfg.minRssi
      requires !cfg.ignored(Norm(item.mac)) && !cfg.ignored(DeviceId(item.mac))
      modifies this, dedup
      ensures Value() == Turn(cfg.window, before, PreparedPacket(cfg, item, Readings(item)), Some(LOG_LIMIT))
      ensures processed == before.processed + if wasProcessed then 1 else 0
      ensures deduplicated == before.deduplicated + if wasDuplicate then 1 else 0
    {
      var result := ParseBthomeV2(item.payload);
      if result.EmptyPayload? {
        return false, false;
      }
      var ms := result.packet.measurements;
      var pid := FindFirst(ms, PacketIdOf);
      var kind, capabilities, default, live := Describe(item.mac, ms);
      var p := Prepared(false,
        Dedup.Packet(Dedup.KeyFor(cfg.hash, item.mac, pid, item.payload), item.now, item.rssi, item.gateway),
        item, Norm(item.mac), DeviceId(item.mac), NameOr(cfg, item.mac, default), kind, capabilities, live,
        SensorPatch(item, ms));
      wasDuplicate := Deduplicate(before, p, item.mac, pid, item.payload);
      wasProcessed := !wasDuplicate;
    }

    /** `process_ingest_items`: the items one after another, and how many of them were processed or were duplicates. */
    method ProcessIngestItems(items: seq<Item>) returns (processedCount: nat, deduplicatedCount: nat)
      requires Valid()
      modifies this, dedup
      ensures Value() == Run(cfg.window, old(Value()), PreparedAll(cfg, items), Some(LOG_LIMIT))
      ensures processed == old(processed) + processedCount && deduplicated == old(deduplicated) + deduplicatedCount
    {
      processedCount, deduplicatedCount := 0, 0;
      ghost var before, ps := Value(), PreparedAll(cfg, items);
      for i := 0 to |items|
        invariant Value() == Run(cfg.window, before, ps[..i], Some(LOG_LIMIT))
        invariant processed == old(processed) + processedCount
        invariant deduplicated == old(deduplicated) + deduplicatedCount
      {
        RunNext(cfg.window, before, ps, i, Some(LOG_LIMIT));
        var wasProcessed, wasDuplicate := ProcessItem(items[i]);
        if wasProcessed {
          processedCount := processedCount + 1;
        }
        if wasDuplicate {
          deduplicatedCount := deduplicatedCount + 1;
        }
      }
      assert ps[..|items|] == ps;
    }
  }

  lemma RunNext(window: nat, s: State, ps: seq<Prepared>, i: nat, limit: Option<nat>)
    requires i < |ps|
    ensures Run(window, s, ps[..i + 1], limit) == Turn(window, Run(window, s, ps[..i], limit), ps[i], limit)
  {
    assert ps[..i + 1][..i] == ps[..i];
  }

  /** What a packet's readings make of the device; a later kind of reading overrides an earlier one. */
  method Describe(mac: string, ms: seq<Measurement>)
    returns (kind: string, capabilities: seq<string>, default: string, live: Option<(string, string)>)
    ensures kind == KindOf(ms) && capabilities == CapabilitiesOf(ms)
    ensures default == DefaultName(ms, mac) && live == LiveEvent(ms)
  {
    kind, default := DescribeDevice(ms, MacSuffix(mac));
    capabilities := DescribeCapabilities(ms);
    live := DescribeEvent(ms);
  }

  method DescribeDevice(ms: seq<Measurement>, suffix: string) returns (kind: string, default: string)
    ensures kind == KindOf(ms) && default == DefaultPrefix(ms) + suffix
  {
    var prefix;
    kind, prefix := "sensor", "BTHome Sensor ";
    var button := FindFirst(ms, ButtonEventOf);
    if button.Some? {
      kind, prefix := "button", "Shelly BLU Button ";
    }
    var contact := FindFirst(ms, DoorWindowOf);
    if contact.Some? {
      kind, prefix := "contact-sensor", "Shelly BLU Door/Window ";
    }
    var motion := FindFirst(ms, MotionOf);
    if motion.Some? {
      kind, prefix := "motion-sensor", "Shelly BLU Motion ";
    }
    default := prefix + suffix;
  }

  method DescribeEvent(ms: seq<Measurement>) returns (live: Option<(string, string)>)
    ensures live == LiveEvent(ms)
  {
    live := None;
    var button := FindFirst(ms, ButtonEventOf);
    if button.Some? {
      live := Some(ButtonTexts(button.value));
    }
    var contact := FindFirst(ms, DoorWindowOf);
    if contact.Some? {
      live := Some(if contact.value then ("door_opened", "Door/Window Opened") else ("door_closed", "Door/Window Closed"));
    }
    var motion := FindFirst(ms, MotionOf);
    if motion == Some(true) {
      live := Some(("motion_detected", "Motion Detected"));
    }
  }

  method DescribeCapabilities(ms: seq<Measurement>) returns (capabilities: seq<string>)
    ensures capabilities == CapabilitiesOf(ms)
  {
    capabilities := ["ble", "bthome"];
    capabilities := Add(capabilities, ms, BatteryOf, "battery");
    capabilities := Add(capabilities, ms, ButtonEventOf, "button");
    capabilities := Add(capabilities, ms, DoorWindowOf, "contact-sensor");
    capabilities := Add(capabilities, ms, MotionOf, "motion-sensor");
    capabilities := Add(capabilities, ms, TemperatureOf, "temperature");
    capabilities := Add(capabilities, ms, HumidityOf, "humidity");
    capabilities := Add(capabilities, ms, IlluminanceOf, "illuminance");
  }

  method Add<T>(capabilities: seq<string>, ms: seq<Measurement>, f: Measurement -> Option<T>, name: string)
    returns (more: seq<string>)
    ensures more == capabilities + If(First(ms, f).Some?, name)
  {
    var reading := FindFirst(ms, f);
    more := if reading.Some? then capabilities + [name] else capabilities;
  }

  // ---- Counters

  /** What one turn does to the counters and to the deduplicator. */
  lemma TurnEffects(window: nat, s: State, p: Prepared, limit: Option<nat>)
    ensures var s' := Turn(window, s, p, limit);
      var (entries, duplicate) := Dedup.Step(window, s.entries, p.packet);
      && s'.received == s.received + 1
      && |s'.sent| - |s.sent| == s'.processed - s.processed
      && (p.dropped ==> s' == s.(received := s.received + 1))
      && (!p.dropped ==> s'.entries == entries)
      && s'.processed == s.processed + (if p.dropped || duplicate then 0 else 1)
      && s'.deduplicated == s.deduplicated + (if !p.dropped && duplicate then 1 else 0)
  {
  }

  function DroppedIn(ps: seq<Prepared>): nat {
    if ps == [] then 0
    else DroppedIn(ps[..|ps| - 1]) + if ps[|ps| - 1].dropped then 1 else 0
  }

  /** Every item is counted once: received = processed + deduplicated + dropped; one upsert for each one processed. */
  lemma {:induction false} CountersBalance(window: nat, ps: seq<Prepared>, limit: Option<nat>)
    ensures var s := Run(window, START, ps, limit);
      && s.received == |ps| == s.processed + s.deduplicated + DroppedIn(ps)
      && |s.sent| == s.processed
  {
    if ps != [] {
      CountersBalance(window, ps[..|ps| - 1], limit);
      TurnEffects(window, Run(window, START, ps[..|ps| - 1], limit), ps[|ps| - 1], limit);
    }
  }

  // ---- The log

  lemma NewestKeepsRecentBattery(events: seq<Event>, mac: string)
    ensures RecentBattery(Newest(events, Some(LOG_LIMIT)), mac) <==> RecentBattery(events, mac)
  {
    var cut := Newest(events, Some(LOG_LIMIT));
    assert forall i :: 0 <= i < |cut| ==> cut[i] == events[i];
    assert |events| > LOG_LIMIT ==> |cut| >= 5;
  }

  lemma NewestAfterPush(events: seq<Event>, e: Event)
    ensures Pushed(Newest(events, Some(LOG_LIMIT)), e, Some(LOG_LIMIT)) == Newest(Pushed(events, e, None), Some(LOG_LIMIT))
  {
  }

  lemma LoggedKeepsNewest(events: seq<Event>, p: Prepared, t: Telemetry)
    ensures Logged(Newest(events, Some(LOG_LIMIT)), p, t, Some(LOG_LIMIT)) ==
      Newest(Logged(events, p, t, None), Some(LOG_LIMIT))
  {
    NewestKeepsRecentBattery(events, p.mac);
    if p.live.Some? {
      NewestAfterPush(events, EventOf(p, p.live.value.0, p.live.value.1, t));
    } else {
      NewestAfterPush(events, EventOf(p, BATTERY_UPDATE, "Battery", t));
    }
  }

  /** The state with its log cut to the newest entries. */
  function Cut(s: State): State {
    s.(events := Newest(s.events, Some(LOG_LIMIT)))
  }

  lemma TurnCuts(window: nat, s: State, p: Prepared)
    ensures Turn(window, Cut(s), p, Some(LOG_LIMIT)) == Cut(Turn(window, s, p, None))
  {
    LoggedKeepsNewest(s.events, p, Laid(p.patch, if p.mac in s.telemetry then s.telemetry[p.mac] else BLANK));
  }

  /**
   The bounded log is always the newest 100 entries of the log that is never truncated, and truncation
   changes nothing else: the battery events it decides on are the same.
   */
  lemma {:induction false} LogIsNewestOfAll(window: nat, ps: seq<Prepared>)
    ensures Run(window, START, ps, Some(LOG_LIMIT)) == Cut(Run(window, START, ps, None))
  {
    if ps != [] {
      LogIsNewestOfAll(window, ps[..|ps| - 1]);
      TurnCuts(window, Run(window, START, ps[..|ps| - 1], None), ps[|ps| - 1]);
    }
  }

  // ---- Telemetry

  predicate HasBattery(s: State, mac: string) {
    mac in s.telemetry && s.telemetry[mac].battery.Some?
  }

  /** A device whose telemetry once held a battery value always does, however the run goes on. */
  lemma {:induction false} BatteryIsNeverLost(window: nat, s: State, ps: seq<Prepared>, limit: Option<nat>, mac: string)
    requires HasBattery(s, mac)
    ensures HasBattery(Run(window, s, ps, limit), mac)
  {
    if ps != [] {
      BatteryIsNeverLost(window, s, ps[..|ps| - 1], limit, mac);
    }
  }

  // ---- Deduplication inside the loop

  /** The packets that reach the deduplicator. */
  function Fed(ps: seq<Prepared>): seq<Dedup.Packet> {
    if ps == [] then []
    else Fed(ps[..|ps| - 1]) + if ps[|ps| - 1].dropped then [] else [ps[|ps| - 1].packet]
  }

  ghost predicate InTime(ps: seq<Prepared>) {
    forall i, j :: 0 <= i <= j < |ps| ==> ps[i].packet.at <= ps[j].packet.at
  }

  lemma {:induction false} FedIsOrdered(ps: seq<Prepared>)
    requires InTime(ps)
    ensures Dedup.Ordered(Fed(ps))
    ensures forall i :: 0 <= i < |Fed(ps)| ==> ps != [] && Fed(ps)[i].at <= ps[|ps| - 1].packet.at
  {
    if ps != [] {
      FedIsOrdered(ps[..|ps| - 1]);
    }
  }

  lemma {:induction false} EntriesFollowFed(window: nat, ps: seq<Prepared>, limit: Option<nat>)
    ensures Run(window, START, ps, limit).entries == Dedup.After(window, Fed(ps))
  {
    if ps != [] {
      var init, p := ps[..|ps| - 1], ps[|ps| - 1];
      EntriesFollowFed(window, init, limit);
      TurnEffects(window, Run(window, START, init, limit), p, limit);
      Dedup.AfterNext(window, Fed(init), p.packet);
      assert Fed(init) + [] == Fed(init);
    }
  }

  /** The last packet fed repeats one of its key that was accepted less than a window before. */
  ghost predicate Repeats(window: nat, ps: seq<Prepared>) {
    Fed(ps) != [] && Dedup.RefDuplicate(window, Fed(ps))
  }

  /**
   With a clock that never goes back, the last item is processed exactly if it is not dropped and no
   packet of its key was accepted less than a window before, however long ago the run began.
   */
  lemma ProcessedUnlessRepeated(window: nat, ps: seq<Prepared>, limit: Option<nat>)
    requires InTime(ps) && ps != []
    ensures var p := ps[|ps| - 1];
      var before, after := Run(window, START, ps[..|ps| - 1], limit), Run(window, START, ps, limit);
      && (p.dropped ==> after == before.(received := before.received + 1))
      && after.processed - before.processed == (if !p.dropped && !Repeats(window, ps) then 1 else 0)
      && after.deduplicated - before.deduplicated == (if !p.dropped && Repeats(window, ps) then 1 else 0)
  {
    var init, p := ps[..|ps| - 1], ps[|ps| - 1];
    TurnEffects(window, Run(window, START, init, limit), p, limit);
    if !p.dropped {
      var fed := Fed(ps);
      assert fed[..|fed| - 1] == Fed(init) && fed[|fed| - 1] == p.packet;
      EntriesFollowFed(window, init, limit);
      FedIsOrdered(ps);
      Dedup.PruningIsSafe(window, fed);
    }
  }

  /** Item `n` of a run raises the count of processed items. */
  predicate IsProcessed(window: nat, ps: seq<Prepared>, limit: Option<nat>, n: nat)
    requires n < |ps|
  {
    Run(window, START, ps[..n + 1], limit).processed > Run(window, START, ps[..n], limit).processed
  }

  lemma ProcessedTellsVerdict(window: nat, ps: seq<Prepared>, limit: Option<nat>, n: nat)
    requires InTime(ps) && n < |ps|
    ensures IsProcessed(window, ps, limit, n) <==> !ps[n].dropped && !Repeats(window, ps[..n + 1])
    ensures !ps[n].dropped ==> Fed(ps[..n + 1]) == Fed(ps[..n]) + [ps[n].packet]
  {
    assert ps[..n + 1][..n] == ps[..n];
    ProcessedUnlessRepeated(window, ps[..n + 1], limit);
  }

  lemma {:induction false} FedIsPrefix(ps: seq<Prepared>, q: nat)
    requires q <= |ps|
    ensures Fed(ps[..q]) <= Fed(ps)
  {
    if q == |ps| {
      assert ps[..q] == ps;
    } else {
      var init := ps[..|ps| - 1];
      FedIsPrefix(init, q);
      assert init[..q] == ps[..q];
    }
  }

  /** The item that fed packet `t`. */
  lemma {:induction false} FedFrom(ps: seq<Prepared>, t: nat) returns (q: nat)
    requires t < |Fed(ps)|
    ensures q < |ps| && !ps[q].dropped && ps[q].packet == Fed(ps)[t] && Fed(ps[..q + 1]) == Fed(ps)[..t + 1]
  {
    var n := |ps| - 1;
    if t < |Fed(ps[..n])| {
      q := FedFrom(ps[..n], t);
      assert ps[..n][..q + 1] == ps[..q + 1];
      assert Fed(ps)[..t + 1] == Fed(ps[..n])[..t + 1];
    } else {
      q := n;
      assert ps[..n + 1] == ps && Fed(ps)[..t + 1] == Fed(ps);
    }
  }

  /** The packet that an item fed. */
  lemma FedAt(ps: seq<Prepared>, q: nat)
    requires q < |ps| && !ps[q].dropped
    ensures var fed, t := Fed(ps), |Fed(ps[..q])|;
      t < |fed| && fed[t] == ps[q].packet && fed[..t + 1] == Fed(ps[..q + 1])
  {
    FedIsPrefix(ps, q + 1);
    assert ps[..q + 1][..q] == ps[..q];
  }

  lemma RepeatsEarlier(window: nat, ps: seq<Prepared>, n: nat, q: nat)
    requires q < n < |ps| && !ps[n].dropped && !ps[q].dropped && !Repeats(window, ps[..q + 1])
    requires ps[q].packet.key == ps[n].packet.key && ps[n].packet.at - ps[q].packet.at < window
    ensures Repeats(window, ps[..n + 1])
  {
    assert ps[..n + 1][..n] == ps[..n] && ps[..n][..q] == ps[..q] && ps[..n][..q + 1] == ps[..q + 1];
    FedAt(ps[..n], q);
    var before, fed, t := Fed(ps[..n]), Fed(ps[..n + 1]), |Fed(ps[..q])|;
    assert fed == before + [ps[n].packet];
    assert fed[..t + 1] == before[..t + 1] && fed[t] == ps[q].packet;
  }

  lemma EarlierSuppresses(window: nat, ps: seq<Prepared>, limit: Option<nat>, n: nat, q: nat)
    requires InTime(ps) && q < n < |ps| && !ps[n].dropped && IsProcessed(window, ps, limit, q)
    requires ps[q].packet.key == ps[n].packet.key && ps[n].packet.at - ps[q].packet.at < window
    ensures !IsProcessed(window, ps, limit, n)
  {
    ProcessedTellsVerdict(window, ps, limit, n);
    ProcessedTellsVerdict(window, ps, limit, q);
    RepeatsEarlier(window, ps, n, q);
  }

  /**
   Anywhere in a run with a clock that never goes back, an item that is not dropped is suppressed if and only if some
   earlier item of its key was processed less than a window before.
   */
  lemma SuppressedExactly(window: nat, ps: seq<Prepared>, limit: Option<nat>, n: nat)
    requires InTime(ps) && n < |ps| && !ps[n].dropped
    ensures !IsProcessed(window, ps, limit, n) <==>
      exists q | 0 <= q < n ::
        && ps[q].packet.key == ps[n].packet.key && IsProcessed(window, ps, limit, q)
        && ps[n].packet.at - ps[q].packet.at < window
  {
    ProcessedTellsVerdict(window, ps, limit, n);
    if !IsProcessed(window, ps, limit, n) {
      var fed := Fed(ps[..n + 1]);
      var t :| 0 <= t < |fed| - 1 && fed[t].key == ps[n].packet.key
        && !Dedup.RefDuplicate(window, fed[..t + 1]) && ps[n].packet.at - fed[t].at < window;
      var q := FedFrom(ps[..n], t);
      assert ps[..n][..q + 1] == ps[..q + 1] && Fed(ps[..n])[..t + 1] == fed[..t + 1];
      ProcessedTellsVerdict(window, ps, limit, q);
    } else {
      forall q | 0 <= q < n && ps[q].packet.key == ps[n].packet.key && IsProcessed(window, ps, limit, q)
        ensures ps[n].packet.at - ps[q].packet.at >= window
      {
        if ps[n].packet.at - ps[q].packet.at < window { EarlierSuppresses(window, ps, limit, n, q); }
      }
    }
  }

  // ---- Taking an item out of a run

  function LeftOut<T>(xs: seq<T>, i: nat): seq<T>
    requires i < |xs|
  {
    xs[..i] + xs[i + 1..]
  }

  /** Items of other keys leave no trace among the packets of key `k`. */
  lemma {:induction false} OthersLeaveNoTrace(ps: seq<Prepared>, i: nat, k: Dedup.Key)
    requires i < |ps| && ps[i].packet.key != k
    ensures Dedup.Only(Fed(LeftOut(ps, i)), k) == Dedup.Only(Fed(ps), k)
  {
    if i + 1 < |ps| {
      OthersLeaveNoTrace(ps[..|ps| - 1], i, k);
      LaterLeaveNoTrace(ps, i, k);
    } else {
      LastLeavesNoTrace(ps, k);
    }
  }

  lemma LastLeavesNoTrace(ps: seq<Prepared>, k: Dedup.Key)
    requires ps != [] && ps[|ps| - 1].packet.key != k
    ensures Dedup.Only(Fed(LeftOut(ps, |ps| - 1)), k) == Dedup.Only(Fed(ps), k)
  {
    assert LeftOut(ps, |ps| - 1) == ps[..|ps| - 1];
    OnlyNext(ps, k);
  }

  lemma LaterLeaveNoTrace(ps: seq<Prepared>, i: nat, k: Dedup.Key)
    requires i + 1 < |ps| && Dedup.Only(Fed(LeftOut(ps[..|ps| - 1], i)), k) == Dedup.Only(Fed(ps[..|ps| - 1]), k)
    ensures Dedup.Only(Fed(LeftOut(ps, i)), k) == Dedup.Only(Fed(ps), k)
  {
    LeftOutNext(ps, i);
    NextLeavesNoTrace(ps, LeftOut(ps, i), k);
  }

  lemma LeftOutNext(ps: seq<Prepared>, i: nat)
    requires i + 1 < |ps|
    ensures var n, rest := |ps| - 1, LeftOut(ps, i);
      |rest| == n && rest[..n - 1] == LeftOut(ps[..n], i) && rest[n - 1] == ps[n]
  {
  }

  lemma NextLeavesNoTrace(ps: seq<Prepared>, rest: seq<Prepared>, k: Dedup.Key)
    requires ps != [] && rest != [] && ps[|ps| - 1] == rest[|rest| - 1]
    requires Dedup.Only(Fed(ps[..|ps| - 1]), k) == Dedup.Only(Fed(rest[..|rest| - 1]), k)
    ensures Dedup.Only(Fed(ps), k) == Dedup.Only(Fed(rest), k)
  {
    OnlyNext(ps, k);
    OnlyNext(rest, k);
  }

  lemma OnlyNext(ps: seq<Prepared>, k: Dedup.Key)
    requires ps != []
    ensures var p := ps[|ps| - 1];
      Dedup.Only(Fed(ps), k) == Dedup.Only(Fed(ps[..|ps| - 1]), k)
                                + if !p.dropped && p.packet.key == k then [p.packet] else []
  {
    var init, p := Fed(ps[..|ps| - 1]), ps[|ps| - 1];
    assert init + [] == init && (init + [p.packet])[..|init|] == init;
  }

  lemma LeavingOut(ps: seq<Prepared>, i: nat, n: nat)
    requires InTime(ps) && i < n < |ps|
    ensures InTime(LeftOut(ps, i)) && |LeftOut(ps, i)| == |ps| - 1 && LeftOut(ps, i)[n - 1] == ps[n]
  {
    var rest := LeftOut(ps, i);
    assert forall q :: 0 <= q < |rest| ==> rest[q] == ps[if q < i then q else q + 1];
  }

  /** The verdict on an item is told from the packets of its key alone. */
  lemma VerdictIsLocal(window: nat, ps: seq<Prepared>, limit: Option<nat>, n: nat)
    requires InTime(ps) && n < |ps| && !ps[n].dropped
    ensures var qs := Dedup.Only(Fed(ps[..n + 1]), ps[n].packet.key);
      qs != [] && (IsProcessed(window, ps, limit, n) <==> !Dedup.Duplicate(window, qs))
  {
    ProcessedTellsVerdict(window, ps, limit, n);
    var fed := Fed(ps[..n + 1]);
    assert fed != [] && fed[|fed| - 1] == ps[n].packet;
    FedIsOrdered(ps[..n + 1]);
    Dedup.PruningIsSafe(window, fed);
    Dedup.VerdictsAreLocal(window, fed);
  }

  /** Two runs whose items `n` and `m` are one, with the same packets of its key up to there. */
  ghost predicate Alike(ps: seq<Prepared>, n: nat, rest: seq<Prepared>, m: nat) {
    && InTime(ps) && n < |ps| && InTime(rest) && m < |rest| && ps[n] == rest[m] && !ps[n].dropped
    && Dedup.Only(Fed(ps[..n + 1]), ps[n].packet.key) == Dedup.Only(Fed(rest[..m + 1]), ps[n].packet.key)
  }

  lemma OneVerdict(window: nat, ps: seq<Prepared>, n: nat, rest: seq<Prepared>, m: nat, limit: Option<nat>)
    requires Alike(ps, n, rest, m)
    ensures IsProcessed(window, rest, limit, m) == IsProcessed(window, ps, limit, n)
  {
    VerdictIsLocal(window, ps, limit, n);
    VerdictIsLocal(window, rest, limit, m);
  }

  lemma PrefixesAgree(ps: seq<Prepared>, i: nat, n: nat, m: nat, k: Dedup.Key)
    requires i < n == m + 1 < |ps| && ps[i].packet.key != k
    ensures |LeftOut(ps, i)| == |ps| - 1
    ensures Dedup.Only(Fed(ps[..n + 1]), k) == Dedup.Only(Fed(LeftOut(ps, i)[..m + 1]), k)
  {
    assert LeftOut(ps, i)[..m + 1] == LeftOut(ps[..n + 1], i);
    OthersLeaveNoTrace(ps[..n + 1], i, k);
  }

  lemma RunsAreAlike(ps: seq<Prepared>, i: nat, n: nat)
    requires InTime(ps) && i < n < |ps| && ps[i].packet.key != ps[n].packet.key && !ps[n].dropped
    ensures Alike(ps, n, LeftOut(ps, i), n - 1)
  {
    LeavingOut(ps, i, n);
    PrefixesAgree(ps, i, n, n - 1, ps[n].packet.key);
  }

  /** Whether an item is processed is not changed by taking an earlier item of another key out of the run. */
  lemma OthersDoNotCount(window: nat, ps: seq<Prepared>, limit: Option<nat>, i: nat, n: nat)
    requires InTime(ps) && i < n < |ps| && ps[i].packet.key != ps[n].packet.key && !ps[n].dropped
    ensures IsProcessed(window, LeftOut(ps, i), limit, n - 1) == IsProcessed(window, ps, limit, n)
  {
    var rest, m := LeftOut(ps, i), n - 1;
    assert Alike(ps, n, rest, m) by { RunsAreAlike(ps, i, n); }
    assert IsProcessed(window, rest, limit, m) == IsProcessed(window, ps, limit, n) by {
      OneVerdict(window, ps, n, rest, m, limit);
    }
  }

  // ---- What telemetry holds

  /** What the processed items of a device report: those that were not dropped and repeat no accepted packet. */
  ghost function ReportsOf(window: nat, ps: seq<Prepared>, mac: string): seq<Telemetry> {
    if ps == [] then []
    else
      var p := ps[|ps| - 1];
      ReportsOf(window, ps[..|ps| - 1], mac) +
      if !p.dropped && p.mac == mac && !Repeats(window, ps) then [p.patch] else []
  }

  /** The last reading that is present. */
  function Latest<T>(reports: seq<Telemetry>, f: Telemetry -> Option<T>): Option<T> {
    if reports == [] then None
    else if f(reports[|reports| - 1]).Some? then f(reports[|reports| - 1])
    else Latest(reports[..|reports| - 1], f)
  }

  ghost predicate Summarises(t: Telemetry, reports: seq<Telemetry>)
    requires reports != []
  {
    var last := reports[|reports| - 1];
    && t.mac == last.mac && t.gateway == last.gateway && t.rssi == last.rssi
    && t.lastSeen == last.lastSeen && t.category == last.category
    && SummarisesReadings(t, reports)
  }

  ghost predicate SummarisesReadings(t: Telemetry, reports: seq<Telemetry>) {
    && t.battery == Latest(reports, (r: Telemetry) => r.battery)
    && t.buttonEvent == Latest(reports, (r: Telemetry) => r.buttonEvent)
    && t.buttonRaw == Latest(reports, (r: Telemetry) => r.buttonRaw)
    && t.contactOpen == Latest(reports, (r: Telemetry) => r.contactOpen)
    && t.motion == Latest(reports, (r: Telemetry) => r.motion)
    && t.temperature == Latest(reports, (r: Telemetry) => r.temperature)
    && t.humidity == Latest(reports, (r: Telemetry) => r.humidity)
    && t.illuminance == Latest(reports, (r: Telemetry) => r.illuminance)
  }

  lemma LatestNext<T>(reports: seq<Telemetry>, r: Telemetry, f: Telemetry -> Option<T>)
    ensures Latest(reports + [r], f) == if f(r).Some? then f(r) else Latest(reports, f)
  {
    assert (reports + [r])[..|reports|] == reports;
  }

  lemma LayingSummarises(reports: seq<Telemetry>, patch: Telemetry, t: Telemetry)
    requires SummarisesReadings(t, reports)
    ensures Summarises(Laid(patch, t), reports + [patch])
  {
    LatestNext(reports, patch, (r: Telemetry) => r.battery);
    LatestNext(reports, patch, (r: Telemetry) => r.buttonEvent);
    LatestNext(reports, patch, (r: Telemetry) => r.buttonRaw);
    LatestNext(reports, patch, (r: Telemetry) => r.contactOpen);
    LatestNext(reports, patch, (r: Telemetry) => r.motion);
    LatestNext(reports, patch, (r: Telemetry) => r.temperature);
    LatestNext(reports, patch, (r: Telemetry) => r.humidity);
    LatestNext(reports, patch, (r: Telemetry) => r.illuminance);
  }

  /** The telemetry of a device is there exactly if it was reported, and sums up its reports. */
  ghost predicate Tells(telemetry: map<string, Telemetry>, mac: string, reports: seq<Telemetry>) {
    && (mac in telemetry <==> reports != [])
    && (reports != [] ==> Summarises(telemetry[mac], reports))
  }

  function Overlaid(telemetry: map<string, Telemetry>, p: Prepared): map<string, Telemetry> {
    telemetry[p.mac := Laid(p.patch, if p.mac in telemetry then telemetry[p.mac] else BLANK)]
  }

  lemma OverlaidTells(telemetry: map<string, Telemetry>, p: Prepared, reports: seq<Telemetry>)
    requires Tells(telemetry, p.mac, reports)
    ensures Tells(Overlaid(telemetry, p), p.mac, reports + [p.patch])
  {
    LayingSummarises(reports, p.patch, if p.mac in telemetry then telemetry[p.mac] else BLANK);
  }

  lemma TurnOverlays(window: nat, s: State, p: Prepared, limit: Option<nat>)
    ensures var s' := Turn(window, s, p, limit);
      s'.telemetry == if s'.processed == s.processed then s.telemetry else Overlaid(s.telemetry, p)
  {
  }

  lemma ReportsNext(window: nat, ps: seq<Prepared>, limit: Option<nat>, mac: string)
    requires InTime(ps) && ps != []
    ensures var before, s, p := Run(window, START, ps[..|ps| - 1], limit), Run(window, START, ps, limit), ps[|ps| - 1];
      var reports := ReportsOf(window, ps[..|ps| - 1], mac);
      && s.telemetry == (if s.processed == before.processed then before.telemetry else Overlaid(before.telemetry, p))
      && ReportsOf(window, ps, mac) ==
        if s.processed != before.processed && p.mac == mac then reports + [p.patch] else reports
  {
    TurnOverlays(window, Run(window, START, ps[..|ps| - 1], limit), ps[|ps| - 1], limit);
    ProcessedUnlessRepeated(window, ps, limit);
  }

  /**
   Over any run with a clock that never goes back, the telemetry of a device holds, for every kind of
   reading, the last one that a processed item reported, and for the rest what the last of them said.
   */
  lemma {:induction false} TelemetryIsLatest(window: nat, ps: seq<Prepared>, limit: Option<nat>, mac: string)
    requires InTime(ps)
    ensures Tells(Run(window, START, ps, limit).telemetry, mac, ReportsOf(window, ps, mac))
  {
    if ps != [] {
      var init, p := ps[..|ps| - 1], ps[|ps| - 1];
      TelemetryIsLatest(window, init, limit, mac);
      ReportsNext(window, ps, limit, mac);
      if p.mac == mac {
        OverlaidTells(Run(window, START, init, limit).telemetry, p, ReportsOf(window, init, mac));
      }
    }
  }

  /**
   Which items are dropped, and by which key and when the rest are deduplicated, is told from the item alone:
   by its packet id if the payload carries one, else by the hash of the payload, or of the button's byte.
   */
  lemma PreparedTellsItem(cfg: Config, items: seq<Item>, i: nat)
    requires i < |items|
    ensures var p, item := PreparedAll(cfg, items)[i], items[i];
      && p.mac == Norm(item.mac) && p.packet.at == item.now
      && p.packet.rssi == item.rssi && p.packet.gateway == item.gateway
      && p.dropped == (item.rssi < cfg.minRssi || cfg.ignored(Norm(item.mac)) || cfg.ignored(DeviceId(item.mac))
                       || (item.button.None? && item.payload == []))
      && p.packet.key == match item.button
        case Some(e) => Dedup.PayloadHash(Norm(item.mac), cfg.hash([ButtonByte(e)]))
        case None =>
          match First(Readings(item), PacketIdOf)
          case Some(pid) => Dedup.PacketId(Norm(item.mac), pid)
          case None => Dedup.PayloadHash(Norm(item.mac), cfg.hash(item.payload))
  {
    NormIsStable(items[i].mac);
  }

  // ---- One broadcast, two notations

  /** Two reports of one broadcast, perhaps by different gateways and in different notations of the MAC. */
  predicate SameBroadcast(x: Item, y: Item) {
    x.button == y.button && x.payload == y.payload
  }

  /** Reports of one broadcast are told to be one exactly if the MACs differ in case and surrounding space only. */
  lemma SharedKeyExactly(cfg: Config, x: Item, y: Item)
    requires SameBroadcast(x, y)
    ensures Prepare(cfg, x).packet.key == Prepare(cfg, y).packet.key <==> Norm(x.mac) == Norm(y.mac)
  {
    var px := PreparedAll(cfg, [x, y]);
    PreparedTellsItem(cfg, [x, y], 0);
    PreparedTellsItem(cfg, [x, y], 1);
  }

  /**
   Of two reports of one broadcast the second is suppressed if and only if the MACs are spelled alike and it comes
   within the window. Device ids drop colons and dashes, keys do not: two notations of one MAC are sent twice as one
   device, and have two entries of telemetry.
   */
  lemma TwoReportsOfOne(cfg: Config, x: Item, y: Item, limit: Option<nat>)
    requires SameBroadcast(x, y) && !IsDropped(cfg, x) && !IsDropped(cfg, y)
    ensures var s := Run(cfg.window, START, PreparedAll(cfg, [x, y]), limit);
      var suppressed := Norm(x.mac) == Norm(y.mac) && 0 < cfg.window && y.now < x.now + cfg.window;
      && s.processed == (if suppressed then 1 else 2) && s.deduplicated == (if suppressed then 1 else 0)
      && s.telemetry.Keys == {Norm(x.mac), Norm(y.mac)} && |s.sent| == s.processed
      && (!suppressed ==> s.sent[0].deviceId == DeviceId(x.mac) && s.sent[1].deviceId == DeviceId(y.mac))
  {
    var ps := PreparedAll(cfg, [x, y]);
    SharedKeyExactly(cfg, x, y);
    PreparedTellsItem(cfg, [x, y], 0);
    PreparedTellsItem(cfg, [x, y], 1);
    assert ps[..1] == [ps[0]] && ps[..1][..0] == [];
    var one := Turn(cfg.window, START, ps[0], limit);
    FirstTurn(cfg, ps[0], limit);
    SecondTurn(cfg, one, ps[0], ps[1], limit);
    assert Run(cfg.window, START, ps[..1], limit) == one;
  }

  /**
   Two reports of one broadcast anywhere in a run: spelled alike, the later one is suppressed if the earlier one was
   processed less than a window before; spelled otherwise, it fares as if the earlier one had never come.
   */
  lemma ReportsOfOneInARun(cfg: Config, items: seq<Item>, i: nat, n: nat, limit: Option<nat>)
    requires i < n < |items| && InTime(PreparedAll(cfg, items))
    requires SameBroadcast(items[i], items[n]) && !IsDropped(cfg, items[n])
    ensures var x, y, ps, w := items[i], items[n], PreparedAll(cfg, items), cfg.window;
      if Norm(x.mac) == Norm(y.mac) then
        IsProcessed(w, ps, limit, i) && y.now - x.now < w ==> !IsProcessed(w, ps, limit, n)
      else
        IsProcessed(w, ps, limit, n) == IsProcessed(w, PreparedAll(cfg, LeftOut(items, i)), limit, n - 1)
  {
    PreparedKeys(cfg, items, i, n);
    if Norm(items[i].mac) != Norm(items[n].mac) {
      PreparedLeftOut(cfg, items, i);
      OthersDoNotCount(cfg.window, PreparedAll(cfg, items), limit, i, n);
    } else if
      && IsProcessed(cfg.window, PreparedAll(cfg, items), limit, i)
      && items[n].now - items[i].now < cfg.window
    {
      EarlierSuppresses(cfg.window, PreparedAll(cfg, items), limit, n, i);
    }
  }

  lemma PreparedLeftOut(cfg: Config, items: seq<Item>, i: nat)
    requires i < |items|
    ensures PreparedAll(cfg, LeftOut(items, i)) == LeftOut(PreparedAll(cfg, items), i)
  {
  }

  lemma PreparedKeys(cfg: Config, items: seq<Item>, i: nat, n: nat)
    requires i < n < |items| && SameBroadcast(items[i], items[n]) && !IsDropped(cfg, items[n])
    ensures var ps := PreparedAll(cfg, items);
      && (ps[i].packet.key == ps[n].packet.key <==> Norm(items[i].mac) == Norm(items[n].mac))
      && ps[i].packet.at == items[i].now && ps[n].packet.at == items[n].now && !ps[n].dropped
  {
    SharedKeyExactly(cfg, items[i], items[n]);
    PreparedTellsItem(cfg, items, i);
    PreparedTellsItem(cfg, items, n);
  }

  lemma FirstTurn(cfg: Config, p: Prepared, limit: Option<nat>)
    requires !p.dropped
    ensures var one := Turn(cfg.window, START, p, limit);
      && one.entries == map[p.packet.key := Dedup.Entry(p.packet.at, p.packet.rssi, p.packet.gateway)]
      && one.processed == 1 && one.deduplicated == 0 && one.telemetry.Keys == {p.mac}
      && |one.sent| == 1 && one.sent[0].deviceId == p.deviceId
  {
    assert Dedup.Pruned(map[], cfg.window, p.packet.at) == map[];
  }

  lemma SecondTurn(cfg: Config, one: State, p: Prepared, q: Prepared, limit: Option<nat>)
    requires !q.dropped && one.processed == 1 && one.deduplicated == 0 && one.telemetry.Keys == {p.mac}
    requires one.entries == map[p.packet.key := Dedup.Entry(p.packet.at, p.packet.rssi, p.packet.gateway)]
    requires |one.sent| == 1 && one.sent[0].deviceId == p.deviceId && (p.packet.key == q.packet.key ==> p.mac == q.mac)
    ensures var s := Turn(cfg.window, one, q, limit);
      var suppressed := p.packet.key == q.packet.key && 0 < cfg.window && q.packet.at < p.packet.at + cfg.window;
      && s.processed == (if suppressed then 1 else 2) && s.deduplicated == (if suppressed then 1 else 0)
      && s.telemetry.Keys == {p.mac, q.mac} && |s.sent| == s.processed
      && s.sent[0].deviceId == p.deviceId && (!suppressed ==> s.sent[1].deviceId == q.deviceId)
  {
    var live := Dedup.Pruned(one.entries, cfg.window, q.packet.at);
    assert forall k :: k in live ==> k == p.packet.key;
    TurnEffects(cfg.window, one, q, limit);
  }

  /** Dashes for colons make another spelling of the MAC, and the same device id. */
  lemma DashesDiffer(mac: string)
    requires ':' in Norm(mac)
    ensures Norm(Replaced(mac, ':', '-')) != Norm(mac) && DeviceId(Replaced(mac, ':', '-')) == DeviceId(mac)
  {
    NormReplaced(mac);
    WithoutReplaced(Norm(mac), ':', '-', {':', '-'});
    var i :| 0 <= i < |Norm(mac)| && Norm(mac)[i] == ':';
    assert Norm(Replaced(mac, ':', '-'))[i] == '-';
  }

  /** A MAC written with colons and then with dashes: one device id, two spellings, so both reports are processed. */
  lemma DashesMakeTwo(cfg: Config, x: Item, y: Item, limit: Option<nat>)
    requires ':' in Norm(x.mac) && y == x.(mac := Replaced(x.mac, ':', '-'))
    requires !IsDropped(cfg, x) && !IsDropped(cfg, y)
    ensures var s := Run(cfg.window, START, PreparedAll(cfg, [x, y]), limit);
      && |s.sent| == s.processed == 2 && s.sent[0].deviceId == s.sent[1].deviceId
      && s.telemetry.Keys == {Norm(x.mac), Norm(y.mac)} && Norm(x.mac) != Norm(y.mac)
  {
    DashesDiffer(x.mac);
    TwoReportsOfOne(cfg, x, y, limit);
  }
}
