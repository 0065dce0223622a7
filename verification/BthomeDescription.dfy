/** What the ingest loop makes of the readings of a packet, told from the measurements and the bytes themselves. */
module BthomeDescription {
  import opened Options
  import opened Octets
  import opened Text
  import opened BthomeParser
  import opened BthomeIngest

  ghost predicate HasReading(ms: seq<Measurement>, m: Measurement) {
    exists i :: 0 <= i < |ms| && SameKind(m, ms[i])
  }

  /** An accessor yields nothing exactly if there is no measurement of its kind. */
  lemma NothingRead<T(!new)>(ms: seq<Measurement>, f: Measurement -> Option<T>, m: Measurement)
    requires forall x :: f(x).Some? <==> SameKind(m, x)
    ensures First(ms, f).Some? <==> HasReading(ms, m)
  {
    FirstIsFirst(ms, f);
  }

  lemma ReadingsPresent(ms: seq<Measurement>)
    ensures First(ms, MotionOf).Some? <==> HasReading(ms, Motion(true))
    ensures First(ms, DoorWindowOf).Some? <==> HasReading(ms, DoorWindow(true))
    ensures First(ms, ButtonEventOf).Some? <==> HasReading(ms, ButtonEvent(NoEvent))
    ensures First(ms, BatteryOf).Some? <==> HasReading(ms, Battery(0))
  {
    NothingRead(ms, MotionOf, Motion(true));
    NothingRead(ms, DoorWindowOf, DoorWindow(true));
    NothingRead(ms, ButtonEventOf, ButtonEvent(NoEvent));
    NothingRead(ms, BatteryOf, Battery(0));
  }

  lemma QuantitiesPresent(ms: seq<Measurement>)
    ensures First(ms, TemperatureOf).Some? <==> HasReading(ms, Temperature(0))
    ensures First(ms, HumidityOf).Some? <==> HasReading(ms, Humidity(0))
    ensures First(ms, IlluminanceOf).Some? <==> HasReading(ms, Illuminance(0))
  {
    NothingRead(ms, TemperatureOf, Temperature(0));
    NothingRead(ms, HumidityOf, Humidity(0));
    NothingRead(ms, IlluminanceOf, Illuminance(0));
  }

  /** The names of the events that the bytes of a button stand for. */
  lemma ButtonBytesAreNamed(b: byte)
    ensures ButtonTexts(ButtonOf(b)).0 ==
      if b == 1 then "press" else if b == 2 then "double_press" else if b == 3 then "triple_press"
      else if b == 4 then "long_press" else if b == 5 then "long_double_press" else if b == 6 then "long_triple_press"
      else if b == 0x80 then "hold" else "unknown"
    ensures ButtonTexts(ButtonOf(b)).1 ==
      if b == 1 then "Single Press" else if b == 2 then "Double Press" else if b == 3 then "Triple Press"
      else if b == 4 then "Long Press" else if b == 5 then "Long Double Press" else if b == 6 then "Long Triple Press"
      else if b == 0x80 then "Hold" else "Button Action"
  {
  }

  /**
   The event of a packet: motion that is detected, else the first reading of a door, else the first button event; motion
   that ends is none of its own.
   */
  lemma EventIsTold(ms: seq<Measurement>)
    ensures FirstReading(ms, Motion(true)) ==> LiveEvent(ms) == Some(("motion_detected", "Motion Detected"))
    ensures !FirstReading(ms, Motion(true)) && FirstReading(ms, DoorWindow(true)) ==>
      LiveEvent(ms) == Some(("door_opened", "Door/Window Opened"))
    ensures !FirstReading(ms, Motion(true)) && FirstReading(ms, DoorWindow(false)) ==>
      LiveEvent(ms) == Some(("door_closed", "Door/Window Closed"))
    ensures !FirstReading(ms, Motion(true)) && !HasReading(ms, DoorWindow(true)) ==>
      && (!HasReading(ms, ButtonEvent(NoEvent)) ==> LiveEvent(ms) == None)
      && forall b: byte :: FirstReading(ms, ButtonEvent(ButtonOf(b))) ==> LiveEvent(ms) == Some(ButtonTexts(ButtonOf(b)))
  {
    ReadingIsFirst(ms, Motion(true));
    ReadingIsFirst(ms, DoorWindow(true));
    ReadingIsFirst(ms, DoorWindow(false));
    ReadingsPresent(ms);
    forall b: byte | FirstReading(ms, ButtonEvent(ButtonOf(b))) ensures First(ms, ButtonEventOf) == Some(ButtonOf(b)) {
      ReadingIsFirst(ms, ButtonEvent(ButtonOf(b)));
    }
  }

  /** The kind and the default name follow motion before doors before buttons. */
  lemma KindIsTold(ms: seq<Measurement>, mac: string)
    ensures (KindOf(ms), DefaultPrefix(ms)) ==
      if HasReading(ms, Motion(true)) then ("motion-sensor", "Shelly BLU Motion ")
      else if HasReading(ms, DoorWindow(true)) then ("contact-sensor", "Shelly BLU Door/Window ")
      else if HasReading(ms, ButtonEvent(NoEvent)) then ("button", "Shelly BLU Button ")
      else ("sensor", "BTHome Sensor ")
    ensures DefaultName(ms, mac) == DefaultPrefix(ms) + MacSuffix(mac)
  {
    ReadingsPresent(ms);
  }

  /** A capability is listed exactly if there is a measurement of its kind, in this order. */
  lemma CapabilitiesAreTold(ms: seq<Measurement>)
    ensures CapabilitiesOf(ms) == ["ble", "bthome"]
      + (if HasReading(ms, Battery(0)) then ["battery"] else [])
      + (if HasReading(ms, ButtonEvent(NoEvent)) then ["button"] else [])
      + (if HasReading(ms, DoorWindow(true)) then ["contact-sensor"] else [])
      + (if HasReading(ms, Motion(true)) then ["motion-sensor"] else [])
      + (if HasReading(ms, Temperature(0)) then ["temperature"] else [])
      + (if HasReading(ms, Humidity(0)) then ["humidity"] else [])
      + (if HasReading(ms, Illuminance(0)) then ["illuminance"] else [])
  {
    ReadingsPresent(ms);
    QuantitiesPresent(ms);
  }

  /** Each reading goes into the field of its kind. */
  lemma PatchIsTold(item: Item, ms: seq<Measurement>, m: Measurement)
    ensures var t := SensorPatch(item, ms);
      && t.mac == Norm(item.mac) && t.gateway == item.gateway && t.rssi == item.rssi && t.lastSeen == item.now
      && t.category == KindOf(ms)
      && match m
        case Battery(v) => t.battery == Some(v) <==> FirstReading(ms, m)
        case ButtonEvent(e) =>
          && (t.buttonRaw == Some(e) <==> FirstReading(ms, m))
          && (FirstReading(ms, m) ==> t.buttonEvent == Some(ButtonTexts(e).0))
        case DoorWindow(v) => t.contactOpen == Some(v) <==> FirstReading(ms, m)
        case Motion(v) => t.motion == Some(v) <==> FirstReading(ms, m)
        case Temperature(v) => t.temperature == Some(v) <==> FirstReading(ms, m)
        case Humidity(v) => t.humidity == Some(v) <==> FirstReading(ms, m)
        case Illuminance(v) => t.illuminance == Some(v) <==> FirstReading(ms, m)
        case _ => true
  {
    ReadingIsFirst(ms, m);
  }

  // ---- What an item becomes

  /** The id and the name of a device: the configured name of its MAC, else one that ends with the MAC's last four digits. */
  lemma ItemIsNamed(cfg: Config, item: Item)
    ensures var p, mac := Prepare(cfg, item), Norm(item.mac);
      var digits := Without(mac, {':', '-'});
      && p.item == item && p.mac == mac && p.deviceId == "bthome-" + digits
      && p.name ==
        if mac in cfg.names then cfg.names[mac]
        else (if item.button.Some? then "Shelly BLU Button " else DefaultPrefix(Readings(item))) +
             (if |digits| < 4 then digits else digits[|digits| - 4..])
  {
  }

  /** A packet is described by its readings, an event of a button by its name. */
  lemma ItemIsDescribed(cfg: Config, item: Item)
    ensures var p := Prepare(cfg, item);
      match item.button
      case None =>
        var ms := Readings(item);
        && p.kind == KindOf(ms) && p.capabilities == CapabilitiesOf(ms) && p.live == LiveEvent(ms)
        && p.patch == SensorPatch(item, ms)
      case Some(e) =>
        && p.kind == "button" && p.capabilities == ["ble", "bthome", "button", "battery"]
        && p.live == Some(ButtonTexts(e)) && p.patch.buttonEvent == Some(ButtonTexts(e).0)
        && p.patch.mac == Norm(item.mac) && p.patch.gateway == item.gateway && p.patch.rssi == item.rssi
        && p.patch.lastSeen == item.now && p.patch.category == "button"
        && p.patch.battery == None && p.patch.buttonRaw == None && p.patch.contactOpen == p.patch.motion == None
        && p.patch.temperature == p.patch.humidity == p.patch.illuminance == None
  {
  }

  /** The event as it is logged, with where and how it was received and what is known of the device. */
  ghost predicate Records(e: Event, p: Prepared, eventType: string, description: string, t: Telemetry) {
    && e.timestamp == p.item.now && e.mac == p.mac && e.deviceName == p.name && e.rssi == p.item.rssi
    && e.gateway == p.item.gateway && e.gatewayId == p.item.gatewayId && e.gatewayIp == p.item.gatewayIp
    && e.eventType == eventType && e.description == description && e.battery == t.battery && e.details == t
  }

  ghost predicate LatelyUpdated(events: seq<Event>, mac: string) {
    exists i :: 0 <= i < |events| && i < 5 && events[i].mac == mac && events[i].eventType == "battery_update"
  }

  /**
   A processed item is sent on with what is known of its device. If it tells an event that is logged first; if not, a
   battery update is, unless the battery is unknown or the newest five entries have one of the device.
   */
  lemma ProcessedIsLogged(window: nat, s: State, p: Prepared)
    requires Turn(window, s, p, Some(LOG_LIMIT)).processed > s.processed
    ensures var s' := Turn(window, s, p, Some(LOG_LIMIT));
      && p.mac in s'.telemetry
      && var t := s'.telemetry[p.mac];
      && s'.known == s.known[p.mac := p.name]
      && s'.sent == s.sent + [Sent(p.deviceId, p.name, p.kind, p.capabilities, t)]
      && if p.live == None && (t.battery == None || LatelyUpdated(s.events, p.mac)) then s'.events == s.events
         else
           && s'.events != []
           && s'.events[1..] == (if |s.events| < 100 then s.events else s.events[..99])
           && match p.live
              case Some(live) => Records(s'.events[0], p, live.0, live.1, t)
              case None => Records(s'.events[0], p, "battery_update", "Battery", t)
  {
  }
}
