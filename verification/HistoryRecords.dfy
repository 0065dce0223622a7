/**
 Device records, how two records of one device are merged, and the evidence a record carries.
 */
module HistoryRecords {
  import opened Options
  import opened Sequences
  import opened Text

  /** RFC 3339 timestamps compare like their moments; 0 stands for the empty string, below every other. */
  type Time = nat

  /** The classification of a device. The source copies these four fields together or not at all. */
  datatype Category = Category(kind: string, title: Option<string>, icon: Option<string>, script: Option<string>)

  datatype Details = Details(
    hostname: Option<string>, vendor: Option<string>, vendorId: Option<string>,
    productId: Option<string>, productName: Option<string>,
    webUrl: Option<string>, matterFabrics: Option<string>)

  datatype Record = Record(
    deviceId: string, displayName: string, category: Category, ip: string, mac: Option<string>,
    interface: string, details: Details, capabilities: seq<string>, source: string, sources: seq<string>,
    firstSeen: Time, lastSeen: Time, isActive: bool, wasEverActive: bool)

  type Store = map<string, Record>

  /** Key `k` is in the store (a named test, so that quantifiers over keys have something to match). */
  predicate Has(m: Store, k: string) { k in m }

  // ---- Keys

  predicate ValidMac(mac: Option<string>) {
    mac.Some? && Norm(mac.value) != "" && !Contains(Norm(mac.value), "incomplete")
  }

  function RecordKey(mac: Option<string>, deviceId: string): string {
    if ValidMac(mac) then Norm(mac.value) else deviceId
  }

  function KeyOf(r: Record): string {
    RecordKey(r.mac, r.deviceId)
  }

  /** The MAC, trimmed and in lower case, unless it is then empty or says "incomplete" somewhere; else the id. */
  lemma KeyIsTold(mac: Option<string>, deviceId: string)
    ensures RecordKey(mac, deviceId) ==
      if mac.Some? && Lower(Trim(mac.value)) != "" && !Within("incomplete", Lower(Trim(mac.value)))
      then Lower(Trim(mac.value)) else deviceId
  {
    if mac.Some? {
      ContainsAt(Norm(mac.value), "incomplete");
    }
  }

  /** Every record sits under the key computed from its own MAC and id. */
  ghost predicate Canonical(m: Store) {
    forall k :: Has(m, k) ==> KeyOf(m[k]) == k
  }

  // ---- Merging

  /** Appends the elements of `ys` that are missing, in order. */
  function WithMissing(xs: seq<string>, ys: seq<string>): seq<string> {
    if ys == [] then xs
    else
      var init := WithMissing(xs, ys[..|ys| - 1]);
      if ys[|ys| - 1] in init then init else init + [ys[|ys| - 1]]
  }

  function WithSource(sources: seq<string>, source: string): seq<string> {
    if source !in sources && source != "" then sources + [source] else sources
  }

  predicate GenericName(name: string) {
    "Host " <= name || "net-" <= name
  }

  const GENERIC_KIND := "network-device"

  function Earlier(a: Time, b: Time): Time {
    if a == 0 || (b != 0 && b < a) then b else a
  }

  function Later(a: Time, b: Time): Time {
    if b > a then b else a
  }

  function Either<T>(a: Option<T>, b: Option<T>): Option<T> {
    if a.None? && b.Some? then b else a
  }

  function MergedDetails(t: Details, o: Details): Details {
    Details(
      Either(t.hostname, o.hostname),
      Either(t.vendor, o.vendor),
      Either(t.vendorId, o.vendorId),
      Either(t.productId, o.productId),
      if t.productId.None? && o.productId.Some? then o.productName else t.productName,
      Either(t.webUrl, o.webUrl),
      Either(t.matterFabrics, o.matterFabrics))
  }

  /** What `merge_records` leaves in its target. */
  function Merged(t: Record, o: Record): Record {
    Record(
      t.deviceId,
      if GenericName(t.displayName) && !GenericName(o.displayName) then o.displayName else t.displayName,
      if t.category.kind == GENERIC_KIND && o.category.kind != GENERIC_KIND then o.category else t.category,
      t.ip,
      Either(t.mac, o.mac),
      t.interface,
      MergedDetails(t.details, o.details),
      WithMissing(t.capabilities, o.capabilities),
      t.source,
      WithSource(WithMissing(t.sources, o.sources), o.source),
      Earlier(t.firstSeen, o.firstSeen),
      Later(t.lastSeen, o.lastSeen),
      t.isActive || o.isActive,
      t.wasEverActive || o.isActive || o.wasEverActive)
  }

  /** `merge_records`: the target is updated field by field, each field being a variable here. */
  method MergeRecords(target: Record, other: Record) returns (r: Record)
    ensures r == Merged(target, other)
  {
    var isActive, wasEverActive := target.isActive, target.wasEverActive;
    if other.isActive {
      isActive, wasEverActive := true, true;
    }
    if other.wasEverActive {
      wasEverActive := true;
    }
    var sources := PushMissing(target.sources, other.sources);
    if other.source !in sources && other.source != "" {
      sources := sources + [other.source];
    }
    assert sources == WithSource(WithMissing(target.sources, other.sources), other.source);
    var lastSeen, firstSeen := target.lastSeen, target.firstSeen;
    if other.lastSeen > lastSeen {
      lastSeen := other.lastSeen;
    }
    if firstSeen == 0 || (other.firstSeen != 0 && other.firstSeen < firstSeen) {
      firstSeen := other.firstSeen;
    }
    assert lastSeen == Later(target.lastSeen, other.lastSeen) && firstSeen == Earlier(target.firstSeen, other.firstSeen);
    var displayName, category, mac := target.displayName, target.category, target.mac;
    if GenericName(displayName) && !GenericName(other.displayName) {
      displayName := other.displayName;
    }
    if category.kind == GENERIC_KIND && other.category.kind != GENERIC_KIND {
      category := other.category;
    }
    if mac.None? && other.mac.Some? {
      mac := other.mac;
    }
    assert mac == Either(target.mac, other.mac);
    var capabilities := PushMissing(target.capabilities, other.capabilities);
    r := Record(target.deviceId, displayName, category, target.ip, mac, target.interface,
      MergedDetails(target.details, other.details), capabilities, target.source, sources,
      firstSeen, lastSeen, isActive, wasEverActive);
  }

  method PushMissing(xs: seq<string>, ys: seq<string>) returns (zs: seq<string>)
    ensures zs == WithMissing(xs, ys)
  {
    zs := xs;
    assert ys[..0] == [];
    for i := 0 to |ys|
      invariant zs == WithMissing(xs, ys[..i])
    {
      assert ys[..i + 1][..i] == ys[..i];
      if ys[i] !in zs {
        zs := zs + [ys[i]];
      }
    }
    assert ys[..|ys|] == ys;
  }

  // ---- Facts about merging

  /** Appending what is missing unites the elements, keeps the old list in front and adds no duplicate. */
  lemma {:induction false} WithMissingUnites(xs: seq<string>, ys: seq<string>)
    ensures Elements(WithMissing(xs, ys)) == Elements(xs) + Elements(ys)
    ensures xs <= WithMissing(xs, ys)
    ensures NoDuplicates(xs) ==> NoDuplicates(WithMissing(xs, ys))
  {
    if ys != [] {
      var init, y := ys[..|ys| - 1], ys[|ys| - 1];
      WithMissingUnites(xs, init);
      assert ys == init + [y];
      assert Elements(ys) == Elements(init) + {y};
      AppendOne(WithMissing(xs, init), y);
    }
  }

  lemma AppendOne(xs: seq<string>, y: string)
    ensures Elements(xs + [y]) == Elements(xs) + {y}
    ensures y in xs ==> Elements(xs) == Elements(xs) + {y}
  {
  }

  /** The sources a record stands for: those listed, and the one that reported it last. */
  function AllSources(sources: seq<string>, source: string): set<string> {
    Elements(sources) + (if source == "" then {} else {source})
  }

  lemma MergedSources(t: Record, o: Record)
    ensures Elements(Merged(t, o).sources) == Elements(t.sources) + AllSources(o.sources, o.source)
    ensures Elements(Merged(t, o).capabilities) == Elements(t.capabilities) + Elements(o.capabilities)
  {
    WithMissingUnites(t.sources, o.sources);
    WithMissingUnites(t.capabilities, o.capabilities);
    AppendOne(WithMissing(t.sources, o.sources), o.source);
  }

  // ---- Evidence

  /** What is known about a device, without saying which record told it. */
  datatype Evidence = Evidence(
    sources: set<string>, capabilities: set<string>, active: bool, everActive: bool,
    latest: Time, earliest: Time, named: bool, classified: bool)

  const NOTHING: Evidence := Evidence({}, {}, false, false, 0, 0, false, false)

  function Join(a: Evidence, b: Evidence): Evidence {
    Evidence(
      a.sources + b.sources, a.capabilities + b.capabilities, a.active || b.active, a.everActive || b.everActive,
      Later(a.latest, b.latest), Earlier(a.earliest, b.earliest), a.named || b.named, a.classified || b.classified)
  }

  function EvidenceOf(r: Record): Evidence {
    Evidence(
      AllSources(r.sources, r.source),
      Elements(r.capabilities),
      r.isActive, r.isActive || r.wasEverActive,
      r.lastSeen, r.firstSeen,
      !GenericName(r.displayName), r.category.kind != GENERIC_KIND)
  }

  /** Evidence forms a commutative, associative, idempotent structure with NOTHING below everything. */
  lemma JoinIsSemilattice(a: Evidence, b: Evidence, c: Evidence)
    ensures Join(a, b) == Join(b, a)
    ensures Join(Join(a, b), c) == Join(a, Join(b, c))
    ensures Join(a, a) == a
    ensures Join(NOTHING, a) == a
  {
    assert (a.sources + b.sources) + c.sources == a.sources + (b.sources + c.sources);
    assert (a.capabilities + b.capabilities) + c.capabilities == a.capabilities + (b.capabilities + c.capabilities);
    assert a.sources + b.sources == b.sources + a.sources;
    assert a.capabilities + b.capabilities == b.capabilities + a.capabilities;
    assert a.sources + a.sources == a.sources && a.capabilities + a.capabilities == a.capabilities;
    assert {} + a.sources == a.sources && {} + a.capabilities == a.capabilities;
  }

  lemma JoinSwaps(a: Evidence, b: Evidence, c: Evidence)
    ensures Join(a, Join(b, c)) == Join(b, Join(a, c))
  {
    JoinIsSemilattice(a, b, c);
    JoinIsSemilattice(b, a, c);
  }

  /** Merging two records loses no evidence and invents none. */
  lemma MergeJoinsEvidence(t: Record, o: Record)
    ensures EvidenceOf(Merged(t, o)) == Join(EvidenceOf(t), EvidenceOf(o))
  {
    MergedSources(t, o);
    assert EvidenceOf(Merged(t, o)).sources == EvidenceOf(t).sources + EvidenceOf(o).sources;
  }

  /** A merge keeps the target's identity, and its MAC when it has one. */
  lemma MergeKeepsIdentity(t: Record, o: Record)
    ensures var r := Merged(t, o);
      r.deviceId == t.deviceId && r.ip == t.ip && r.interface == t.interface && r.source == t.source
    ensures t.mac.Some? ==> Merged(t, o).mac == t.mac
    ensures KeyOf(t) == KeyOf(o) ==> KeyOf(Merged(t, o)) == KeyOf(t)
  {
  }

  /** A detail that is known stays what it was. */
  ghost predicate Unchanged(a: Option<string>, b: Option<string>) {
    a.Some? ==> b == a
  }

  /** A merge fills gaps and overrides nothing: what the target knows, and a specific name or category, stays. */
  lemma MergeOverridesNothing(t: Record, o: Record)
    ensures var r := Merged(t, o);
      && (!GenericName(t.displayName) ==> r.displayName == t.displayName)
      && (t.category.kind != GENERIC_KIND ==> r.category == t.category)
      && (r.category == t.category || r.category == o.category)
      && Unchanged(t.mac, r.mac) && Unchanged(t.details.hostname, r.details.hostname)
      && Unchanged(t.details.vendor, r.details.vendor) && Unchanged(t.details.vendorId, r.details.vendorId)
      && Unchanged(t.details.productId, r.details.productId) && Unchanged(t.details.webUrl, r.details.webUrl)
      && Unchanged(t.details.matterFabrics, r.details.matterFabrics)
      && (t.details.productId.Some? ==> r.details.productName == t.details.productName)
      && t.sources <= r.sources && t.capabilities <= r.capabilities
  {
    WithMissingUnites(t.sources, o.sources);
    WithMissingUnites(t.capabilities, o.capabilities);
  }

  /** A gap of the target, or text that is not reported, and what fills it. */
  ghost predicate Filled(a: Option<string>, b: Option<string>, r: Option<string>) {
    a.None? ==> r == b
  }

  /**
   Every gap is filled with what the other record knows: a generic name and kind by specific ones, the product's name
   with its id, the first sighting by the earlier, the last by the later.
   */
  lemma MergeFillsGaps(t: Record, o: Record)
    ensures var r := Merged(t, o);
      && ("Host " <= t.displayName || "net-" <= t.displayName ==>
            r.displayName == if "Host " <= o.displayName || "net-" <= o.displayName then t.displayName else o.displayName)
      && (t.category.kind == "network-device" ==>
            r.category == if o.category.kind == "network-device" then t.category else o.category)
      && Filled(t.mac, o.mac, r.mac) && Filled(t.details.hostname, o.details.hostname, r.details.hostname)
      && Filled(t.details.vendor, o.details.vendor, r.details.vendor)
      && Filled(t.details.vendorId, o.details.vendorId, r.details.vendorId)
      && Filled(t.details.productId, o.details.productId, r.details.productId)
      && Filled(t.details.webUrl, o.details.webUrl, r.details.webUrl)
      && Filled(t.details.matterFabrics, o.details.matterFabrics, r.details.matterFabrics)
      && (t.details.productId.None? ==>
            r.details.productName == (if o.details.productId.Some? then o.details else t.details).productName)
    ensures var r := Merged(t, o);
      && r.lastSeen >= t.lastSeen && r.lastSeen >= o.lastSeen && r.lastSeen in {t.lastSeen, o.lastSeen}
      && r.firstSeen in {t.firstSeen, o.firstSeen} && (r.firstSeen == 0 <==> t.firstSeen == o.firstSeen == 0)
      && (t.firstSeen != 0 ==> r.firstSeen <= t.firstSeen) && (o.firstSeen != 0 ==> r.firstSeen <= o.firstSeen)
      && (r.isActive <==> t.isActive || o.isActive)
      && (r.wasEverActive <==> t.wasEverActive || o.isActive || o.wasEverActive)
  {
  }

  /** Merging the same record in again changes nothing. */
  lemma MergeAbsorbs(t: Record, o: Record)
    ensures Merged(Merged(t, o), o) == Merged(t, o)
  {
    var sources := WithMissing(t.sources, o.sources);
    WithMissingUnites(t.sources, o.sources);
    WithMissingUnites(t.capabilities, o.capabilities);
    AppendOne(sources, o.source);
    assert Elements(o.sources) <= Elements(WithSource(sources, o.source));
    NothingMissing(WithSource(sources, o.source), o.sources);
    NothingMissing(WithMissing(t.capabilities, o.capabilities), o.capabilities);
    assert o.source == "" || o.source in WithSource(sources, o.source);
  }

  lemma {:induction false} NothingMissing(xs: seq<string>, ys: seq<string>)
    requires Elements(ys) <= Elements(xs)
    ensures WithMissing(xs, ys) == xs
  {
    if ys != [] {
      assert forall y :: y in ys ==> y in Elements(ys);
      assert ys[|ys| - 1] in ys && forall y :: y in ys[..|ys| - 1] ==> y in ys;
      NothingMissing(xs, ys[..|ys| - 1]);
    }
  }

  /**
   Merging three records in either grouping gives the same record, except for the order
   in which the sources and capabilities are listed.
   */
  lemma MergeIsAssociative(a: Record, b: Record, c: Record)
    ensures var l := Merged(Merged(a, b), c);
      var r := Merged(a, Merged(b, c));
      && l.(sources := [], capabilities := []) == r.(sources := [], capabilities := [])
      && Elements(l.sources) == Elements(r.sources)
      && Elements(l.capabilities) == Elements(r.capabilities)
  {
    MergedSources(a, b);
    MergedSources(Merged(a, b), c);
    MergedSources(b, c);
    MergedSources(a, Merged(b, c));
  }

  // ---- Evidence of a whole store

  /** The join over all records; StoreEvidenceSplit shows that the order of joining is irrelevant. */
  ghost function StoreEvidence(m: Store): Evidence
    decreases |m|
  {
    if m == map[] then NOTHING
    else
      var k := AnyKey(m);
      RemovalShrinks(m, k);
      Join(EvidenceOf(m[k]), StoreEvidence(m - {k}))
  }

  ghost function AnyKey(m: Store): (k: string)
    requires m != map[]
    ensures k in m
  {
    var k :| k in m; k
  }

  lemma RemovalShrinks(m: Store, k: string)
    requires k in m
    ensures |m - {k}| == |m| - 1
  {
    assert (m - {k}).Keys == m.Keys - {k};
  }

  lemma {:induction false} StoreEvidenceSplit(m: Store, k: string)
    requires k in m
    ensures StoreEvidence(m) == Join(EvidenceOf(m[k]), StoreEvidence(m - {k}))
    decreases |m|
  {
    var k0 := AnyKey(m);
    if k0 != k {
      RemovalShrinks(m, k0);
      RemovalShrinks(m, k);
      var m0, mk := m - {k0}, m - {k};
      assert mk - {k0} == m0 - {k};
      StoreEvidenceSplit(m0, k);
      StoreEvidenceSplit(mk, k0);
      JoinSwaps(EvidenceOf(m[k0]), EvidenceOf(m[k]), StoreEvidence(m0 - {k}));
      assert StoreEvidence(m) == Join(EvidenceOf(m[k0]), StoreEvidence(m0));
    }
  }

  /** Adding a record under a new key joins its evidence. */
  lemma StoreEvidenceAdd(m: Store, k: string, r: Record)
    requires k !in m
    ensures StoreEvidence(m[k := r]) == Join(EvidenceOf(r), StoreEvidence(m))
  {
    StoreEvidenceSplit(m[k := r], k);
    assert m[k := r] - {k} == m;
  }

  /** Merging a record into one that is stored joins its evidence too. */
  lemma StoreEvidenceMerge(m: Store, k: string, r: Record)
    requires k in m
    ensures StoreEvidence(m[k := Merged(m[k], r)]) == Join(EvidenceOf(r), StoreEvidence(m))
  {
    var m' := m[k := Merged(m[k], r)];
    StoreEvidenceSplit(m, k);
    StoreEvidenceSplit(m', k);
    assert m' - {k} == m - {k};
    MergeJoinsEvidence(m[k], r);
    JoinIsSemilattice(EvidenceOf(m[k]), EvidenceOf(r), StoreEvidence(m - {k}));
    JoinIsSemilattice(EvidenceOf(r), EvidenceOf(m[k]), StoreEvidence(m - {k}));
  }
}
