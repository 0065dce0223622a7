/** The BTHome V2 payload parser, over the source's own table of object ids and widths. */
module BthomeParser {
  import opened Options
  import opened Octets
  import opened Sequences

  datatype ButtonEventType =
    | NoEvent | Press | DoublePress | TriplePress | LongPress | LongDoublePress | LongTriplePress | Hold
    | UnknownEvent(code: byte)

  /** Physical quantities are fixed-point: hundredths or thousandths of their unit. */
  datatype Measurement =
    | PacketId(id: byte) | Battery(percent: byte)
    | Temperature(centi: int) | Humidity(centi: int) | Pressure(centi: int) | Illuminance(centi: int)
    | Power(centi: int) | Energy(milli: int) | Voltage(milli: int) | Current(milli: int)
    | GenericBoolean(on: bool) | DoorWindow(open: bool) | Motion(detected: bool)
    | ButtonEvent(event: ButtonEventType)
    | Unknown(object: byte, data: seq<byte>)

  datatype Packet = Packet(version: int, encrypted: bool, triggerBased: bool, measurements: seq<Measurement>)

  datatype ParseResult = Parsed(packet: Packet) | EmptyPayload

  // ---- Buttons

  function ButtonOf(b: byte): ButtonEventType {
    match b
    case 0 => NoEvent
    case 1 => Press
    case 2 => DoublePress
    case 3 => TriplePress
    case 4 => LongPress
    case 5 => LongDoublePress
    case 6 => LongTriplePress
    case 128 => Hold
    case _ => UnknownEvent(b)
  }

  /** The byte under which a synthetic button event is deduplicated. */
  function ButtonByte(e: ButtonEventType): byte {
    match e
    case NoEvent => 0
    case Press => 1
    case DoublePress => 2
    case TriplePress => 3
    case LongPress => 4
    case LongDoublePress => 5
    case LongTriplePress => 6
    case Hold => 128
    case UnknownEvent(code) => code
  }

  predicate NamedCode(b: byte) { b <= 6 || b == 128 }

  /** The two tables are inverse, except that an unknown event with a named code is read as the named one. */
  lemma ButtonTablesAgree(b: byte, e: ButtonEventType)
    ensures ButtonByte(ButtonOf(b)) == b
    ensures ButtonOf(ButtonByte(e)) == e <==> !(e.UnknownEvent? && NamedCode(e.code))
  {
  }

  // ---- Objects

  function Width(id: byte): (w: nat)
    ensures 1 <= w <= 3
  {
    match id
    case 0x02 => 2
    case 0x03 => 2
    case 0x04 => 3
    case 0x05 => 3
    case 0x0B => 3
    case 0x0C => 3
    case 0x0D => 2
    case _ => 1
  }

  function LittleEndian(raw: seq<byte>): nat {
    if raw == [] then 0 else raw[0] + 256 * LittleEndian(raw[1..])
  }

  function Signed16(u: nat): int {
    if u >= 0x8000 then u - 0x1_0000 else u
  }

  function Decoded(id: byte, raw: seq<byte>): Measurement
    requires |raw| == Width(id)
  {
    match id
    case 0x00 => PacketId(raw[0])
    case 0x01 => Battery(raw[0])
    case 0x02 => Temperature(Signed16(LittleEndian(raw)))
    case 0x03 => Humidity(LittleEndian(raw))
    case 0x04 => Pressure(LittleEndian(raw))
    case 0x05 => Illuminance(LittleEndian(raw))
    case 0x0B => Power(LittleEndian(raw))
    case 0x0C => Energy(LittleEndian(raw))
    case 0x0D => Voltage(LittleEndian(raw))
    case 0x0F => GenericBoolean(raw[0] != 0)
    case 0x1A => DoorWindow(raw[0] != 0)
    case 0x21 => Motion(raw[0] != 0)
    case 0x3A => ButtonEvent(ButtonOf(raw[0]))
    case _ => Unknown(id, [raw[0]])
  }

  /** What the loop reads from the bytes after the header. */
  function Measurements(body: seq<byte>): seq<Measurement> {
    if body == [] || |body| < 1 + Width(body[0]) then []
    else
      var w := Width(body[0]);
      [Decoded(body[0], body[1..1 + w])] + Measurements(body[1 + w..])
  }

  function Encrypted(header: byte): bool { header % 2 != 0 }

  function TriggerBased(header: byte): bool { header / 4 % 2 != 0 }

  function Version(header: byte): int { header / 32 }

  function Parse(payload: seq<byte>): ParseResult {
    if payload == [] then EmptyPayload
    else if Encrypted(payload[0]) then Parsed(Packet(Version(payload[0]), true, TriggerBased(payload[0]), []))
    else Parsed(Packet(Version(payload[0]), false, TriggerBased(payload[0]), Measurements(payload[1..])))
  }

  /** `parse_bthome_v2`: a loop that advances an index over the payload. */
  method ParseBthomeV2(payload: seq<byte>) returns (result: ParseResult)
    ensures result == Parse(payload)
  {
    if payload == [] {
      return EmptyPayload;
    }
    var header := payload[0];
    if Encrypted(header) {
      return Parsed(Packet(Version(header), true, TriggerBased(header), []));
    }
    var measurements: seq<Measurement> := [];
    var idx := 1;
    while idx < |payload|
      invariant 1 <= idx <= |payload|
      invariant Measurements(payload[1..]) == measurements + Measurements(payload[idx..])
    {
      var objId := payload[idx];
      var w := Width(objId);
      ReadOn(payload, idx, measurements);
      idx := idx + 1;
      if idx + w > |payload| {
        break;
      }
      measurements := measurements + [Decoded(objId, payload[idx..idx + w])];
      idx := idx + w;
    }
    assert measurements + [] == measurements;
    return Parsed(Packet(Version(header), false, TriggerBased(header), measurements));
  }

  /** What is read at an object id: nothing more if its value is cut off, else its value and then the rest. */
  lemma ReadNext(payload: seq<byte>, idx: nat, sofar: seq<Measurement>)
    requires idx < |payload|
    ensures idx + 1 + Width(payload[idx]) > |payload| ==> Measurements(payload[idx..]) == []
    ensures idx + 1 + Width(payload[idx]) <= |payload| ==>
      var w := Width(payload[idx]);
      sofar + Measurements(payload[idx..]) ==
        sofar + [Decoded(payload[idx], payload[idx + 1..idx + 1 + w])] + Measurements(payload[idx + 1 + w..])
  {
    var w, rest := Width(payload[idx]), payload[idx..];
    assert rest[0] == payload[idx];
    if idx + 1 + w <= |payload| {
      assert rest[1..1 + w] == payload[idx + 1..idx + 1 + w];
      assert rest[1 + w..] == payload[idx + 1 + w..];
    }
  }

  lemma ReadOn(payload: seq<byte>, idx: nat, sofar: seq<Measurement>)
    requires idx < |payload| && Measurements(payload[1..]) == sofar + Measurements(payload[idx..])
    ensures idx + 1 + Width(payload[idx]) > |payload| ==> Measurements(payload[1..]) == sofar
    ensures idx + 1 + Width(payload[idx]) <= |payload| ==>
      var next := idx + 1 + Width(payload[idx]);
      Measurements(payload[1..]) == (sofar + [Decoded(payload[idx], payload[idx + 1..next])]) + Measurements(payload[next..])
  {
    ReadNext(payload, idx, sofar);
    assert sofar + [] == sofar;
  }

  // ---- Printing

  function Bytes(n: nat, u: nat): (r: seq<byte>)
    ensures |r| == n
  {
    if n == 0 then [] else [u % 256] + Bytes(n - 1, u / 256)
  }

  function Flag(b: bool): byte { if b then 1 else 0 }

  /** Has this id an entry of its own in the table? */
  predicate Recognised(id: byte) {
    id <= 0x05 || id in {0x0B, 0x0C, 0x0D, 0x0F, 0x1A, 0x21, 0x3A}
  }

  /** The measurements that some bytes stand for. `Current` is declared by the source but never parsed. */
  predicate Printable(m: Measurement) {
    match m
    case Temperature(v) => -0x8000 <= v < 0x8000
    case Humidity(v) => 0 <= v < 0x1_0000
    case Voltage(v) => 0 <= v < 0x1_0000
    case Pressure(v) => 0 <= v < 0x100_0000
    case Illuminance(v) => 0 <= v < 0x100_0000
    case Power(v) => 0 <= v < 0x100_0000
    case Energy(v) => 0 <= v < 0x100_0000
    case Current(_) => false
    case ButtonEvent(e) => !(e.UnknownEvent? && NamedCode(e.code))
    case Unknown(id, data) => !Recognised(id) && |data| == 1
    case _ => true
  }

  function Printed(m: Measurement): seq<byte>
    requires Printable(m)
  {
    match m
    case PacketId(v) => [0x00, v]
    case Battery(v) => [0x01, v]
    case Temperature(v) => [0x02] + Bytes(2, if v < 0 then v + 0x1_0000 else v)
    case Humidity(v) => [0x03] + Bytes(2, v)
    case Pressure(v) => [0x04] + Bytes(3, v)
    case Illuminance(v) => [0x05] + Bytes(3, v)
    case Power(v) => [0x0B] + Bytes(3, v)
    case Energy(v) => [0x0C] + Bytes(3, v)
    case Voltage(v) => [0x0D] + Bytes(2, v)
    case GenericBoolean(b) => [0x0F, Flag(b)]
    case DoorWindow(b) => [0x1A, Flag(b)]
    case Motion(b) => [0x21, Flag(b)]
    case ButtonEvent(e) => [0x3A, ButtonByte(e)]
    case Unknown(id, data) => [id] + data
    case Current(_) => assert false; []
  }

  ghost predicate AllPrintable(ms: seq<Measurement>) {
    forall i :: 0 <= i < |ms| ==> Printable(ms[i])
  }

  function PrintedAll(ms: seq<Measurement>): seq<byte>
    requires AllPrintable(ms)
  {
    if ms == [] then [] else Printed(ms[0]) + PrintedAll(ms[1..])
  }

  lemma Bytes2(u: nat)
    requires u < 0x1_0000
    ensures Bytes(2, u) == [u % 256, u / 256] && LittleEndian(Bytes(2, u)) == u
  {
    assert Bytes(1, u / 256) == [u / 256];
    assert LittleEndian([u % 256, u / 256]) == u % 256 + 256 * LittleEndian([u / 256]);
  }

  lemma Bytes3(u: nat)
    requires u < 0x100_0000
    ensures LittleEndian(Bytes(3, u)) == u
  {
    Bytes2(u / 256);
    assert Bytes(3, u)[1..] == Bytes(2, u / 256);
  }

  /** A printed measurement is one whole object that decodes to it. */
  lemma PrintedDecodes(m: Measurement)
    requires Printable(m)
    ensures var bytes := Printed(m);
      |bytes| > 0 && |bytes| == 1 + Width(bytes[0]) && Decoded(bytes[0], bytes[1..]) == m
  {
    match m {
      case Temperature(v) => Bytes2(if v < 0 then v + 0x1_0000 else v);
      case Humidity(v) => Bytes2(v);
      case Voltage(v) => Bytes2(v);
      case Pressure(v) => Bytes3(v);
      case Illuminance(v) => Bytes3(v);
      case Power(v) => Bytes3(v);
      case Energy(v) => Bytes3(v);
      case ButtonEvent(e) => ButtonTablesAgree(0, e);
      case _ =>
    }
  }

  lemma {:induction false} MeasurementsOfPrinted(ms: seq<Measurement>)
    requires AllPrintable(ms)
    ensures Measurements(PrintedAll(ms)) == ms
  {
    if ms != [] {
      MeasurementsOfPrinted(ms[1..]);
      PrintedFirst(ms[0], PrintedAll(ms[1..]));
    }
  }

  lemma PrintedFirst(m: Measurement, rest: seq<byte>)
    requires Printable(m)
    ensures Measurements(Printed(m) + rest) == [m] + Measurements(rest)
  {
    var first := Printed(m);
    PrintedDecodes(m);
    TokensCons(Token(first[0], first[1..]), rest);
    assert first == [first[0]] + first[1..];
  }

  /** A header: three bits of version, two spare ones, the trigger flag, another spare bit, and the encryption flag. */
  function HeaderOf(version: nat, spare: nat, triggered: bool, other: bool, sealed: bool): byte
    requires version < 8 && spare < 4
  {
    32 * version + 8 * spare + 4 * Flag(triggered) + 2 * Flag(other) + Flag(sealed)
  }

  lemma HeaderBits(version: nat, spare: nat, triggered: bool, other: bool, sealed: bool)
    requires version < 8 && spare < 4
    ensures var header := HeaderOf(version, spare, triggered, other, sealed);
      Version(header) == version && TriggerBased(header) == triggered && Encrypted(header) == sealed
  {
    var low := 4 * Flag(triggered) + 2 * Flag(other) + Flag(sealed);
    var header := HeaderOf(version, spare, triggered, other, sealed);
    assert header == 32 * version + 8 * spare + low && low < 8;
    assert header / 4 == 8 * version + 2 * spare + Flag(triggered);
  }

  /** Every byte is such a header. */
  lemma EveryByteIsAHeader(header: byte)
    ensures header ==
      HeaderOf(header / 32, header / 8 % 4, header / 4 % 2 == 1, header / 2 % 2 == 1, header % 2 == 1)
  {
    assert header / 2 == header / 4 * 2 + header / 2 % 2;
    assert header / 4 == header / 8 * 2 + header / 4 % 2;
    assert header / 8 == header / 32 * 4 + header / 8 % 4;
  }

  lemma ParsedUnder(header: byte, body: seq<byte>)
    ensures Parse([header] + body) ==
      Parsed(Packet(Version(header), Encrypted(header), TriggerBased(header),
        if Encrypted(header) then [] else Measurements(body)))
  {
    assert ([header] + body)[1..] == body;
  }

  /** Parsing inverts printing, under any unencrypted header; of an encrypted payload only the header is read. */
  lemma ParsingInvertsPrinting(
    version: nat, spare: nat, triggered: bool, other: bool, ms: seq<Measurement>, sealed: seq<byte>)
    requires version < 8 && spare < 4 && AllPrintable(ms)
    ensures Parse([HeaderOf(version, spare, triggered, other, false)] + PrintedAll(ms)) ==
      Parsed(Packet(version, false, triggered, ms))
    ensures Parse([HeaderOf(version, spare, triggered, other, true)] + sealed) ==
      Parsed(Packet(version, true, triggered, []))
  {
    MeasurementsOfPrinted(ms);
    HeaderBits(version, spare, triggered, other, false);
    HeaderBits(version, spare, triggered, other, true);
    ParsedUnder(HeaderOf(version, spare, triggered, other, false), PrintedAll(ms));
    ParsedUnder(HeaderOf(version, spare, triggered, other, true), sealed);
  }

  // ---- Nothing is lost

  datatype Token = Token(id: byte, raw: seq<byte>)

  predicate WholeToken(t: Token) { |t.raw| == Width(t.id) }

  function Tokens(body: seq<byte>): (ts: seq<Token>)
  {
    if body == [] || |body| < 1 + Width(body[0]) then []
    else
      var w := Width(body[0]);
      [Token(body[0], body[1..1 + w])] + Tokens(body[1 + w..])
  }

  function Tail(body: seq<byte>): seq<byte> {
    if body == [] || |body| < 1 + Width(body[0]) then body else Tail(body[1 + Width(body[0])..])
  }

  predicate Incomplete(tail: seq<byte>) {
    tail != [] ==> |tail| < 1 + Width(tail[0])
  }

  function Joined(ts: seq<Token>): seq<byte> {
    if ts == [] then [] else [ts[0].id] + ts[0].raw + Joined(ts[1..])
  }

  ghost predicate AllWhole(ts: seq<Token>) {
    forall i :: 0 <= i < |ts| ==> WholeToken(ts[i])
  }

  lemma JoinedCons(t: Token, ts: seq<Token>)
    ensures Joined([t] + ts) == [t.id] + t.raw + Joined(ts)
  {
    assert ([t] + ts)[1..] == ts;
  }

  lemma TokensCons(t: Token, rest: seq<byte>)
    requires WholeToken(t)
    ensures var body := [t.id] + t.raw + rest;
      Tokens(body) == [t] + Tokens(rest) && Tail(body) == Tail(rest)
      && Measurements(body) == [Decoded(t.id, t.raw)] + Measurements(rest)
  {
    var body, w := [t.id] + t.raw + rest, Width(t.id);
    assert body[1..1 + w] == t.raw && body[1 + w..] == rest;
  }

  lemma Associate(a: seq<byte>, b: seq<byte>, c: seq<byte>)
    ensures a + b + c == a + (b + c)
  {
  }

  function DecodedAll(ts: seq<Token>): seq<Measurement>
    requires AllWhole(ts)
  {
    if ts == [] then [] else
      assert WholeToken(ts[0]);
      [Decoded(ts[0].id, ts[0].raw)] + DecodedAll(ts[1..])
  }

  lemma {:induction false} TokensAreWhole(body: seq<byte>)
    ensures AllWhole(Tokens(body))
    ensures Measurements(body) == DecodedAll(Tokens(body))
  {
    if body != [] && |body| >= 1 + Width(body[0]) {
      TokensAreWhole(body[1 + Width(body[0])..]);
    }
  }

  /**
   The bytes after the header are the tokens that were parsed, in order, and an incomplete tail of at
   most three bytes; the measurements are those tokens, decoded one by one (TokensAreWhole).
   */
  lemma {:induction false} NothingIsLost(body: seq<byte>)
    ensures body == Joined(Tokens(body)) + Tail(body)
    ensures Incomplete(Tail(body)) && |Tail(body)| <= 3
  {
    if body != [] && |body| >= 1 + Width(body[0]) {
      var w := Width(body[0]);
      var t, rest := Token(body[0], body[1..1 + w]), body[1 + w..];
      assert body == [t.id] + t.raw + rest;
      TokensCons(t, rest);
      NothingIsLost(rest);
      JoinedCons(t, Tokens(rest));
      Associate([t.id] + t.raw, Joined(Tokens(rest)), Tail(rest));
    }
  }

  /** The split into tokens and tail is the only one. */
  lemma {:induction false} SplitIsUnique(ts: seq<Token>, tail: seq<byte>)
    requires AllWhole(ts) && Incomplete(tail)
    ensures Tokens(Joined(ts) + tail) == ts && Tail(Joined(ts) + tail) == tail
  {
    if ts == [] {
      assert Joined(ts) + tail == tail;
    } else {
      var rest := Joined(ts[1..]) + tail;
      assert WholeToken(ts[0]);
      SplitIsUnique(ts[1..], tail);
      Associate([ts[0].id] + ts[0].raw, Joined(ts[1..]), tail);
      TokensCons(ts[0], rest);
      assert ts == [ts[0]] + ts[1..];
    }
  }

  lemma {:induction false} PrefixOfBody(body: seq<byte>, n: nat)
    requires n <= |body|
    ensures Measurements(body[..n]) <= Measurements(body)
  {
    if body != [] && n > 0 && n >= 1 + Width(body[0]) {
      var w := Width(body[0]);
      var t, rest := Token(body[0], body[1..1 + w]), body[1 + w..];
      PrefixOfBody(rest, n - 1 - w);
      assert body == [t.id] + t.raw + rest;
      TokensCons(t, rest);
      assert body[..n] == [t.id] + t.raw + rest[..n - 1 - w];
      TokensCons(t, rest[..n - 1 - w]);
    }
  }

  /** Parsing a non-empty prefix of a payload yields a prefix of its measurements, under the same header fields. */
  lemma PrefixesParseToPrefixes(payload: seq<byte>, n: nat)
    requires 0 < n <= |payload|
    ensures Parse(payload).Parsed? && Parse(payload[..n]).Parsed?
    ensures var p, q := Parse(payload).packet, Parse(payload[..n]).packet;
      q.measurements <= p.measurements && q == p.(measurements := q.measurements)
  {
    PrefixOfBody(payload[1..], n - 1);
    assert payload[..n][1..] == payload[1..][..n - 1];
  }

  /** A token that printing reproduces: a boolean must be stored as 0 or 1. */
  predicate PlainToken(t: Token) {
    t.raw != [] && (t.id in {0x0F, 0x1A, 0x21} ==> t.raw[0] <= 1)
  }

  lemma TokenPrintsBack(t: Token)
    requires WholeToken(t)
    ensures Printable(Decoded(t.id, t.raw))
    ensures Printed(Decoded(t.id, t.raw)) == [t.id] + t.raw <==> PlainToken(t)
    ensures |Printed(Decoded(t.id, t.raw))| == 1 + |t.raw|
  {
    var m := Decoded(t.id, t.raw);
    if Width(t.id) == 2 {
      assert t.raw == [t.raw[0], t.raw[1]];
      LittleEndian2(t.raw);
      Bytes2(LittleEndian(t.raw));
    } else if Width(t.id) == 3 {
      LittleEndian3(t.raw);
    } else {
      assert t.raw == [t.raw[0]];
    }
  }

  lemma LittleEndian2(raw: seq<byte>)
    requires |raw| == 2
    ensures LittleEndian(raw) == raw[0] as int + 256 * (raw[1] as int) < 0x1_0000
    ensures Bytes(2, LittleEndian(raw)) == raw
  {
    assert raw[1..] == [raw[1]];
    assert LittleEndian(raw[1..]) == raw[1];
    Bytes2(LittleEndian(raw));
  }

  lemma LittleEndian3(raw: seq<byte>)
    requires |raw| == 3
    ensures LittleEndian(raw) < 0x100_0000
    ensures Bytes(3, LittleEndian(raw)) == raw
  {
    LittleEndian2(raw[1..]);
    var u := LittleEndian(raw);
    assert u == raw[0] + 256 * LittleEndian(raw[1..]);
    assert u % 256 == raw[0] && u / 256 == LittleEndian(raw[1..]);
    assert raw == [raw[0]] + raw[1..];
  }

  predicate AllPlain(ts: seq<Token>) {
    ts != [] ==> PlainToken(ts[0]) && AllPlain(ts[1..])
  }

  lemma {:induction false} TokensPrintBack(ts: seq<Token>)
    requires AllWhole(ts)
    ensures AllPrintable(DecodedAll(ts))
    ensures PrintedAll(DecodedAll(ts)) == Joined(ts) <==> AllPlain(ts)
    ensures |PrintedAll(DecodedAll(ts))| == |Joined(ts)|
  {
    if ts != [] {
      assert WholeToken(ts[0]);
      TokenPrintsBack(ts[0]);
      TokensPrintBack(ts[1..]);
      var first, rest := [ts[0].id] + ts[0].raw, Joined(ts[1..]);
      var first', rest' := Printed(Decoded(ts[0].id, ts[0].raw)), PrintedAll(DecodedAll(ts[1..]));
      assert DecodedAll(ts)[1..] == DecodedAll(ts[1..]);
      PartsAgree(first, rest, first', rest');
    }
  }

  /** Printing what was parsed gives the payload back exactly if it has no tail and its booleans are 0 or 1. */
  lemma PrintingInvertsParsing(body: seq<byte>)
    ensures AllPrintable(Measurements(body))
    ensures PrintedAll(Measurements(body)) == body <==> Tail(body) == [] && AllPlain(Tokens(body))
  {
    TokensAreWhole(body);
    NothingIsLost(body);
    TokensPrintBack(Tokens(body));
    assert Tail(body) == [] ==> Joined(Tokens(body)) + Tail(body) == Joined(Tokens(body));
  }

  // ---- Accessors

  /** The value the accessors look for: that of the first measurement on which `f` yields one. */
  function First<T>(ms: seq<Measurement>, f: Measurement -> Option<T>): Option<T> {
    if ms == [] then None
    else if f(ms[0]).Some? then f(ms[0])
    else First(ms[1..], f)
  }

  /** The scan shared by `packet_id`, `battery` and the other accessors. */
  method FindFirst<T>(ms: seq<Measurement>, f: Measurement -> Option<T>) returns (r: Option<T>)
    ensures r == First(ms, f)
  {
    for i := 0 to |ms|
      invariant First(ms, f) == First(ms[i..], f)
    {
      if f(ms[i]).Some? {
        return f(ms[i]);
      }
    }
    return None;
  }

  lemma {:induction false} FirstIsFirst<T>(ms: seq<Measurement>, f: Measurement -> Option<T>)
    ensures First(ms, f).None? <==> forall i :: 0 <= i < |ms| ==> f(ms[i]).None?
    ensures First(ms, f).Some? ==>
      exists i :: 0 <= i < |ms| && f(ms[i]) == First(ms, f) && forall j :: 0 <= j < i ==> f(ms[j]).None?
  {
    if ms != [] && f(ms[0]).None? {
      FirstIsFirst(ms[1..], f);
      if First(ms, f).Some? {
        var i :| 0 <= i < |ms[1..]| && f(ms[1..][i]) == First(ms, f) && forall j :: 0 <= j < i ==> f(ms[1..][j]).None?;
        assert f(ms[i + 1]) == First(ms, f);
        assert forall j :: 1 <= j < i + 1 ==> f(ms[j]) == f(ms[1..][j - 1]);
      } else {
        assert forall i :: 1 <= i < |ms| ==> f(ms[i]) == f(ms[1..][i - 1]);
      }
    }
  }

  function PacketIdOf(m: Measurement): Option<byte> {
    if m.PacketId? then Some(m.id) else None
  }

  function BatteryOf(m: Measurement): Option<byte> {
    if m.Battery? then Some(m.percent) else None
  }

  function ButtonEventOf(m: Measurement): Option<ButtonEventType> {
    if m.ButtonEvent? then Some(m.event) else None
  }

  function DoorWindowOf(m: Measurement): Option<bool> {
    if m.DoorWindow? then Some(m.open) else None
  }

  function MotionOf(m: Measurement): Option<bool> {
    if m.Motion? then Some(m.detected) else None
  }

  function TemperatureOf(m: Measurement): Option<int> {
    if m.Temperature? then Some(m.centi) else None
  }

  function HumidityOf(m: Measurement): Option<int> {
    if m.Humidity? then Some(m.centi) else None
  }

  function IlluminanceOf(m: Measurement): Option<int> {
    if m.Illuminance? then Some(m.centi) else None
  }

  // ---- What the accessors find

  predicate SameKind(a: Measurement, b: Measurement) {
    match a
    case PacketId(_) => b.PacketId?
    case Battery(_) => b.Battery?
    case Temperature(_) => b.Temperature?
    case Humidity(_) => b.Humidity?
    case Illuminance(_) => b.Illuminance?
    case DoorWindow(_) => b.DoorWindow?
    case Motion(_) => b.Motion?
    case ButtonEvent(_) => b.ButtonEvent?
    case _ => false
  }

  /** `m` is the first measurement of its kind. */
  ghost predicate FirstReading(ms: seq<Measurement>, m: Measurement) {
    exists i :: 0 <= i < |ms| && ms[i] == m && forall j :: 0 <= j < i ==> !SameKind(m, ms[j])
  }

  lemma FirstTells<T(!new)>(ms: seq<Measurement>, f: Measurement -> Option<T>, m: Measurement)
    requires f(m).Some? && forall x :: (f(x).Some? <==> SameKind(m, x)) && (f(x) == f(m) ==> x == m)
    ensures First(ms, f) == f(m) <==> FirstReading(ms, m)
  {
    FirstIsFirst(ms, f);
    if First(ms, f) == f(m) {
      var i :| 0 <= i < |ms| && f(ms[i]) == First(ms, f) && forall j :: 0 <= j < i ==> f(ms[j]).None?;
      assert ms[i] == m;
    }
    if FirstReading(ms, m) {
      var i :| 0 <= i < |ms| && ms[i] == m && forall j :: 0 <= j < i ==> !SameKind(m, ms[j]);
    }
  }

  /** Each accessor yields a value exactly if that is the first measurement of its kind. */
  lemma ReadingIsFirst(ms: seq<Measurement>, m: Measurement)
    ensures match m
      case PacketId(v) => First(ms, PacketIdOf) == Some(v) <==> FirstReading(ms, m)
      case Battery(v) => First(ms, BatteryOf) == Some(v) <==> FirstReading(ms, m)
      case ButtonEvent(v) => First(ms, ButtonEventOf) == Some(v) <==> FirstReading(ms, m)
      case DoorWindow(v) => First(ms, DoorWindowOf) == Some(v) <==> FirstReading(ms, m)
      case Motion(v) => First(ms, MotionOf) == Some(v) <==> FirstReading(ms, m)
      case Temperature(v) => First(ms, TemperatureOf) == Some(v) <==> FirstReading(ms, m)
      case Humidity(v) => First(ms, HumidityOf) == Some(v) <==> FirstReading(ms, m)
      case Illuminance(v) => First(ms, IlluminanceOf) == Some(v) <==> FirstReading(ms, m)
      case _ => true
  {
    match m
    case PacketId(_) => FirstTells(ms, PacketIdOf, m);
    case Battery(_) => FirstTells(ms, BatteryOf, m);
    case ButtonEvent(_) => FirstTells(ms, ButtonEventOf, m);
    case DoorWindow(_) => FirstTells(ms, DoorWindowOf, m);
    case Motion(_) => FirstTells(ms, MotionOf, m);
    case Temperature(_) => FirstTells(ms, TemperatureOf, m);
    case Humidity(_) => FirstTells(ms, HumidityOf, m);
    case Illuminance(_) => FirstTells(ms, IlluminanceOf, m);
    case _ =>
  }
}
