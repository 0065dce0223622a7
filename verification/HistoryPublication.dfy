/**
 What becomes of the history in the supervisor's registry. The history is keyed by MAC, the registry by device id,
 and a record keeps the id it was created with; so two records may be published under one id.
 */
module HistoryPublication {
  import opened Options
  import opened Text
  import opened Sequences
  import opened HistoryRecords
  import opened HistoryCleanup
  import opened HistorySweep
  import opened HistoryTakeover
  import opened HistoryMacless
  import opened HistoryMatching
  import opened HistoryDeterminism
  import opened HistoryStore
  import Registry = ControlRegistry

  /** The request that replaces the module's devices by those of a report. */
  ghost predicate Publishes(request: Registry.Upsert, report: seq<Line>) {
    && request.replaceAll && |request.devices| == |report|
    && forall i :: 0 <= i < |report| ==> IsDeviceOf(request.devices[i], request.moduleId, report[i])
  }

  predicate IsDeviceOf(d: Registry.DeviceRecord, moduleId: string, line: Line) {
    && d.moduleId == moduleId && d.deviceId == line.deviceId
    && d.displayName == line.displayName && d.kind == line.kind
  }

  /** What the registry holds for the module after the request. */
  ghost function Held(s: Registry.State, request: Registry.Upsert): Registry.Devices {
    Registry.DevicesOf(Registry.Applied(s, Registry.Replace(request)).0.devices, request.moduleId)
  }

  /** The keys under which the registry files the devices of a request, in order. */
  function KeysOf(devices: seq<Registry.DeviceRecord>): (keys: seq<(string, string)>)
    ensures |keys| == |devices|
  {
    seq(|devices|, i requires 0 <= i < |devices| => (devices[i].moduleId, devices[i].deviceId))
  }

  lemma PublishedIsAccepted(s: Registry.State, request: Registry.Upsert, report: seq<Line>)
    requires Publishes(request, report) && request.moduleId in s.modules
    ensures Registry.Applied(s, Registry.Replace(request)).1 == Registry.Ok
    ensures Held(s, request).Keys == Elements(KeysOf(request.devices))
  {
    forall d | d in request.devices ensures d.moduleId == request.moduleId {
      var i :| 0 <= i < |report| && request.devices[i] == d;
      assert IsDeviceOf(request.devices[i], request.moduleId, report[i]);
    }
    Registry.RejectedUpsertAppliesItsPrefix(s, request);
    Registry.ReplaceAllLeavesExactly(s, request);
    var held, keys := Held(s, request), KeysOf(request.devices);
    forall k ensures k in held <==> k in keys {
      if k in held {
        var i :| Registry.LastUnderAt(request.devices, k, held[k], i);
        assert keys[i] == k;
      }
      if k in keys {
        var i :| 0 <= i < |keys| && keys[i] == k;
        assert request.devices[i] in request.devices;
      }
    }
  }

  /**
   The registry accepts the report of a registered module, and never holds more devices than there are records. It
   holds one for each record if and only if no two records carry the same device id.
   */
  lemma RegistryHoldsAllExactly(
    m: Store, report: seq<Line>, order: seq<string>, s: Registry.State, request: Registry.Upsert)
    requires IsReport(report, order, m) && Publishes(request, report) && request.moduleId in s.modules
    ensures Registry.Applied(s, Registry.Replace(request)).1 == Registry.Ok
    ensures |Held(s, request)| <= |m|
    ensures |Held(s, request)| == |m| <==> IdsDistinct(m)
  {
    PublishedIsAccepted(s, request, report);
    var held, keys := Held(s, request), KeysOf(request.devices);
    ElementsCount(keys);
    OrderCounts(order, m);
    assert |held.Keys| == |held|;
    forall i | 0 <= i < |keys| ensures keys[i] == (request.moduleId, m[order[i]].deviceId) {
      assert IsDeviceOf(request.devices[i], request.moduleId, report[i]);
    }
    RepeatsAreShared(m, order, keys, request.moduleId);
  }

  /** What is held under an id has the name and the kind of a record with that id. */
  lemma HeldShowsARecord(
    m: Store, report: seq<Line>, order: seq<string>, s: Registry.State, request: Registry.Upsert, id: string)
    returns (k: string)
    requires IsReport(report, order, m) && Publishes(request, report) && request.moduleId in s.modules
    requires (request.moduleId, id) in Held(s, request)
    ensures var d := Held(s, request)[(request.moduleId, id)];
      Has(m, k) && m[k].deviceId == d.deviceId == id && d.displayName == m[k].displayName && d.kind == m[k].category.kind
  {
    PublishedIsAccepted(s, request, report);
    Registry.ReplaceAllLeavesExactly(s, request);
    var i :| Registry.LastUnderAt(request.devices, (request.moduleId, id), Held(s, request)[(request.moduleId, id)], i);
    assert IsDeviceOf(request.devices[i], request.moduleId, report[i]) && IsLineOf(report[i], m[order[i]]);
    k := order[i];
  }

  lemma OrderCounts(order: seq<string>, m: Store)
    requires IsOrder(order, m)
    ensures |order| == |m|
  {
    ElementsCount(order);
    assert |m.Keys| == |m|;
  }

  lemma RepeatsAreShared(m: Store, order: seq<string>, keys: seq<(string, string)>, moduleId: string)
    requires IsOrder(order, m) && |keys| == |order|
    requires forall i :: 0 <= i < |order| ==> Has(m, order[i])
    requires forall i :: 0 <= i < |keys| ==> keys[i] == (moduleId, m[order[i]].deviceId)
    ensures NoDuplicates(keys) <==> IdsDistinct(m)
  {
    if NoDuplicates(keys) {
      forall j, k | Has(m, j) && Has(m, k) && m[j].deviceId == m[k].deviceId ensures j == k {
        assert j in Elements(order) && k in Elements(order);
        var x :| 0 <= x < |order| && order[x] == j;
        var y :| 0 <= y < |order| && order[y] == k;
        assert keys[x] == keys[y];
      }
    }
    if IdsDistinct(m) {
      forall x, y | 0 <= x < y < |keys| ensures keys[x] != keys[y] {
        assert Has(m, order[x]) && Has(m, order[y]);
      }
    }
  }

  // ---- Which sweeps lead there

  /** The ids of the entries that are matched with no record, in order. */
  function NewIds(devs: seq<Device>, picks: seq<Option<string>>): seq<string>
    requires |picks| == |devs|
  {
    if devs == [] then []
    else
      var n := |devs| - 1;
      NewIds(devs[..n], picks[..n]) + if picks[n].None? then [devs[n].deviceId] else []
  }

  /** An entry that is matched changes no id; one that is not brings its own. */
  lemma StepIds(st: Store, d: Device, now: Time, pick: Option<string>)
    requires Matches(st, d, pick)
    ensures var st' := Applied(st, d, now, pick);
      if pick.Some? then IdsOf(st') == IdsOf(st) && (IdsDistinct(st') <==> IdsDistinct(st))
      else IdsOf(st') == IdsOf(st) + {d.deviceId} && (IdsDistinct(st') <==> IdsDistinct(st) && d.deviceId !in IdsOf(st))
  {
    var t := TargetKey(d);
    if pick.Some? {
      MatchedIds(st, d, now, pick.value);
    } else {
      AddedIds(st, t, Created(d, now));
    }
  }

  lemma AddedIds(st: Store, t: string, r: Record)
    requires t !in st
    ensures IdsOf(st[t := r]) == IdsOf(st) + {r.deviceId}
    ensures IdsDistinct(st[t := r]) <==> IdsDistinct(st) && r.deviceId !in IdsOf(st)
  {
    var st' := st[t := r];
    assert Has(st', t) && forall k :: Has(st, k) ==> Has(st', k) && st'[k] == st[k];
    forall k | Has(st', k) && k != t ensures Has(st, k) {
    }
  }

  lemma MatchedIds(st: Store, d: Device, now: Time, p: string)
    requires Matches(st, d, Some(p))
    ensures var st' := Applied(st, d, now, Some(p));
      IdsOf(st') == IdsOf(st) && (IdsDistinct(st') <==> IdsDistinct(st))
  {
    var st', t := Applied(st, d, now, Some(p)), TargetKey(d);
    assert Has(st, p) && st'[t].deviceId == st[p].deviceId && (t in st ==> p == t);
    forall k | Has(st, k) && k != p ensures Has(st', k) && st'[k] == st[k] {
    }
    forall k | Has(st', k) && k != t ensures Has(st, k) && st'[k] == st[k] && k != p {
    }
    assert IdsOf(st') == IdsOf(st) by {
      forall id ensures id in IdsOf(st') <==> id in IdsOf(st) {
        if id in IdsOf(st') {
          var k :| Has(st', k) && st'[k].deviceId == id;
          assert Has(st, if k == t then p else k);
        }
        if id in IdsOf(st) {
          var k :| Has(st, k) && st[k].deviceId == id;
          assert Has(st', if k == p then t else k);
        }
      }
    }
    if IdsDistinct(st) {
      forall j, k | Has(st', j) && Has(st', k) && st'[j].deviceId == st'[k].deviceId ensures j == k {
        var x, y := if j == t then p else j, if k == t then p else k;
        assert Has(st, x) && Has(st, y) && x == y;
      }
    }
    if IdsDistinct(st') {
      forall j, k | Has(st, j) && Has(st, k) && st[j].deviceId == st[k].deviceId ensures j == k {
        var x, y := if j == p then t else j, if k == p then t else k;
        assert Has(st', x) && Has(st', y) && x == y;
      }
    }
  }

  /**
   After the first loop of any sweep, the ids are distinct if and only if they were before and no entry that is
   matched with no record repeats an id: of a record, or of an earlier such entry.
   */
  lemma {:induction false} SweptIdsExactly(m: Store, devs: seq<Device>, now: Time, picks: seq<Option<string>>)
    requires GoodPicks(m, devs, now, picks)
    ensures var st, added := Swept(m, devs, now, picks), NewIds(devs, picks);
      && IdsOf(st) == IdsOf(m) + Elements(added)
      && (IdsDistinct(st) <==> IdsDistinct(m) && NoDuplicates(added) && IdsOf(m) !! Elements(added))
  {
    if devs != [] {
      var n := |devs| - 1;
      SweptIdsExactly(m, devs[..n], now, picks[..n]);
      StepIds(Swept(m, devs[..n], now, picks[..n]), devs[n], now, picks[n]);
      if picks[n].None? {
        AppendingRepeats(NewIds(devs[..n], picks[..n]), devs[n].deviceId);
      } else {
        assert NewIds(devs, picks) == NewIds(devs[..n], picks[..n]);
      }
    }
  }

  lemma AppendingRepeats(xs: seq<string>, x: string)
    ensures Elements(xs + [x]) == Elements(xs) + {x}
    ensures NoDuplicates(xs + [x]) <==> NoDuplicates(xs) && x !in Elements(xs)
  {
    var all := xs + [x];
    assert forall i :: 0 <= i < |xs| ==> all[i] == xs[i];
    assert all[|xs|] == x;
    if NoDuplicates(all) {
      assert forall i :: 0 <= i < |xs| ==> all[i] != all[|xs|];
    }
  }

  /**
   Where all records and all swept devices have MACs, every outcome of a sweep has distinct ids, and so is held
   by the registry in full, if and only if the ids were distinct and no newcomer repeats one. A newcomer on the old
   address of a device that keeps its id does.
   */
  lemma NewcomersRepeatIdsExactly(m: Store, devs: seq<Device>, now: Time, picks: seq<Option<string>>, after: Store)
    requires KeyedByMac(m) && (forall d :: d in devs ==> ValidMac(d.mac)) && ReconciledVia(m, devs, now, picks, after)
    ensures IdsDistinct(after) <==>
      IdsDistinct(m) && NoDuplicates(NewIds(devs, picks)) && IdsOf(m) !! Elements(NewIds(devs, picks))
  {
    var st := Swept(m, devs, now, picks);
    var marked := MissingMarked(st, SeenKeys(devs));
    SweptIdsExactly(m, devs, now, picks);
    SweptStaysKeyedByMac(m, devs, now, picks);
    MarkingKeepsIds(st, SeenKeys(devs));
    CleanupIsIdempotent(marked, after);
  }

  lemma {:induction false} NewIdsAre(devs: seq<Device>, picks: seq<Option<string>>, id: string)
    requires |picks| == |devs|
    ensures id in NewIds(devs, picks) <==> exists i: nat :: i < |devs| && picks[i] == None && devs[i].deviceId == id
  {
    if devs != [] {
      var n := |devs| - 1;
      NewIdsAre(devs[..n], picks[..n], id);
      assert forall i :: 0 <= i < n ==> devs[..n][i] == devs[i] && picks[..n][i] == picks[i];
    }
  }

  /** No two entries carry one id. */
  ghost predicate EntryIdsDistinct(devs: seq<Device>) {
    forall i, j :: 0 <= i < j < |devs| ==> devs[i].deviceId != devs[j].deviceId
  }

  lemma {:induction false} NewIdsDoNotRepeat(devs: seq<Device>, picks: seq<Option<string>>)
    requires |picks| == |devs| && EntryIdsDistinct(devs)
    ensures NoDuplicates(NewIds(devs, picks))
  {
    if devs != [] {
      var n := |devs| - 1;
      NewIdsDoNotRepeat(devs[..n], picks[..n]);
      NewIdsAre(devs[..n], picks[..n], devs[n].deviceId);
      AppendingRepeats(NewIds(devs[..n], picks[..n]), devs[n].deviceId);
    }
  }

  /** An entry that may be matched with no record brings the id of a record. */
  ghost predicate NewcomerRepeats(m: Store, devs: seq<Device>) {
    exists i: nat :: MayBeNew(m, devs, i) && devs[i].deviceId in IdsOf(m)
  }

  /**
   Told before the sweep: among devices with MACs and ids of their own, some outcome repeats a device id, and so loses a
   record in the registry, if and only if an entry that may be matched with no record brings the id of one.
   */
  lemma SomeOutcomeRepeatsIdsExactly(m: Store, devs: seq<Device>, now: Time)
    requires Tidy(m) && KeyedByMac(m) && IdsDistinct(m)
    requires GoodSweep(devs) && EntryIdsDistinct(devs) && forall d :: d in devs ==> ValidMac(d.mac)
    ensures (exists after :: Reconciled(m, devs, now, after) && !IdsDistinct(after)) <==> NewcomerRepeats(m, devs)
  {
    if i: nat :| MayBeNew(m, devs, i) && devs[i].deviceId in IdsOf(m) {
      var after := RepeatingOutcome(m, devs, now, i);
    }
    if after :| Reconciled(m, devs, now, after) && !IdsDistinct(after) {
      RepeatWasPossible(m, devs, now, after);
    }
  }

  lemma RepeatingOutcome(m: Store, devs: seq<Device>, now: Time, i: nat) returns (after: Store)
    requires Tidy(m) && KeyedByMac(m) && GoodSweep(devs) && forall d :: d in devs ==> ValidMac(d.mac)
    requires MayBeNew(m, devs, i) && devs[i].deviceId in IdsOf(m)
    ensures Reconciled(m, devs, now, after) && !IdsDistinct(after)
  {
    var picks := NewPicks(m, devs, now, i);
    after := Marked(m, devs, now, picks);
    SweptStaysKeyedByMac(m, devs, now, picks);
    MarkingKeepsIds(Swept(m, devs, now, picks), SeenKeys(devs));
    KeyedOutcome(m, devs, now, picks);
    SweptIdsExactly(m, devs, now, picks);
    NewIdsAre(devs, picks, devs[i].deviceId);
  }

  lemma RepeatWasPossible(m: Store, devs: seq<Device>, now: Time, after: Store)
    requires Tidy(m) && KeyedByMac(m) && IdsDistinct(m) && Reconciled(m, devs, now, after) && !IdsDistinct(after)
    requires GoodSweep(devs) && EntryIdsDistinct(devs) && forall d :: d in devs ==> ValidMac(d.mac)
    ensures NewcomerRepeats(m, devs)
  {
    var picks :| ReconciledVia(m, devs, now, picks, after);
    NewcomersRepeatIdsExactly(m, devs, now, picks, after);
    NewIdsDoNotRepeat(devs, picks);
    var id :| id in IdsOf(m) && id in NewIds(devs, picks);
    NewIdsAre(devs, picks, id);
    var i: nat :| i < |devs| && picks[i] == None && devs[i].deviceId == id;
    assert devs[i] in devs;
    NewWasNew(m, devs, now, picks, i);
  }

  // ---- A device that has moved

  function MovedStore(known: string): Store {
    map[known := PlainRecord(known, "10.0.0.5")]
  }

  /** A device known at 10.0.0.5 that is now at 10.0.0.6, and a newcomer at 10.0.0.5; ids are made of addresses. */
  function MovedSweep(known: string, newcomer: string): seq<Device> {
    [PlainDevice(known, "10.0.0.6").(deviceId := "net-10-0-0-6"), PlainDevice(newcomer, "10.0.0.5")]
  }

  lemma TwoSteps(m: Store, devs: seq<Device>, now: Time, picks: seq<Option<string>>)
    requires GoodPicks(m, devs, now, picks) && |devs| == 2
    ensures var one := Applied(m, devs[0], now, picks[0]);
      && Matches(m, devs[0], picks[0]) && Matches(one, devs[1], picks[1])
      && Swept(m, devs, now, picks) == Applied(one, devs[1], now, picks[1])
      && SeenKeys(devs) == {TargetKey(devs[0]), TargetKey(devs[1])}
  {
    GoodPicksPrefix(m, devs, now, picks, 0);
    GoodPicksPrefix(m, devs, now, picks, 1);
    SweptNext(m, devs, now, picks, 0);
    assert devs[..0] == [] && picks[..0] == [];
    assert devs[0] in devs && devs[1] in devs;
  }

  lemma MovedPicks(known: string, newcomer: string, picks: seq<Option<string>>)
    requires PlainText(known) && PlainText(newcomer) && known != "" && newcomer != "" && known != newcomer
    requires GoodPicks(MovedStore(known), MovedSweep(known, newcomer), 3, picks)
    ensures var st := Swept(MovedStore(known), MovedSweep(known, newcomer), 3, picks);
      && st.Keys == {known, newcomer} && SeenKeys(MovedSweep(known, newcomer)) == {known, newcomer}
      && (forall k :: Has(st, k) ==>
            st[k].deviceId == "net-10-0-0-5" && st[k].mac == Some(k) && ValidMac(Some(k)) && Norm(k) == k)
  {
    PlainMac(known);
    PlainMac(newcomer);
    var m, devs := MovedStore(known), MovedSweep(known, newcomer);
    TwoSteps(m, devs, 3, picks);
    var one := Applied(m, devs[0], 3, picks[0]);
    AddressesDiffer();
    assert forall k :: Has(one, k) ==> k == known && one[k].ip == "10.0.0.6" && one[k].mac == Some(known);
    assert picks[1] == None;
  }

  lemma AddressesDiffer()
    ensures "10.0.0.6" != "10.0.0.5"
  {
    assert "10.0.0.6"[7] != "10.0.0.5"[7];
  }

  lemma MovedOutcome(known: string, newcomer: string, after: Store) returns (id: string)
    requires PlainText(known) && PlainText(newcomer) && known != "" && newcomer != "" && known != newcomer
    requires Reconciled(MovedStore(known), MovedSweep(known, newcomer), 3, after)
    ensures after.Keys == {known, newcomer} && forall k :: Has(after, k) ==> after[k].deviceId == id
  {
    id := "net-10-0-0-5";
    var m, devs := MovedStore(known), MovedSweep(known, newcomer);
    var picks :| ReconciledVia(m, devs, 3, picks, after);
    MovedPicks(known, newcomer, picks);
    var st := Swept(m, devs, 3, picks);
    assert MissingMarked(st, SeenKeys(devs)) == st;
    KeyedByMacIsNormal(st);
    CleanupIsIdempotent(st, after);
  }

  lemma KeyedByMacIsNormal(m: Store)
    requires forall k :: Has(m, k) ==> m[k].mac == Some(k) && ValidMac(Some(k)) && Norm(k) == k
    ensures NormalForm(m)
  {
  }

  lemma TwoKeys(m: Store, a: string, b: string)
    requires m.Keys == {a, b} && a != b
    ensures |m| == 2
  {
    assert |m.Keys| == |m|;
  }

  /** In every outcome both devices carry the id made of the old address; so the registry holds one of the two. */
  lemma MovedDeviceIsOvershadowed(
    known: string, newcomer: string, after: Store, report: seq<Line>, order: seq<string>,
    s: Registry.State, request: Registry.Upsert)
    requires PlainText(known) && PlainText(newcomer) && known != "" && newcomer != "" && known != newcomer
    requires Reconciled(MovedStore(known), MovedSweep(known, newcomer), 3, after)
    requires IsReport(report, order, after) && Publishes(request, report) && request.moduleId in s.modules
    ensures |after| == 2 && |Held(s, request)| == 1
  {
    var id := MovedOutcome(known, newcomer, after);
    TwoKeys(after, known, newcomer);
    OneKeyIsHeld(after, report, order, s, request, id);
  }

  lemma OneKeyIsHeld(
    m: Store, report: seq<Line>, order: seq<string>, s: Registry.State, request: Registry.Upsert, id: string)
    requires IsReport(report, order, m) && Publishes(request, report) && request.moduleId in s.modules
    requires m != map[] && forall k :: Has(m, k) ==> m[k].deviceId == id
    ensures |Held(s, request)| == 1
  {
    PublishedIsAccepted(s, request, report);
    var held, keys := Held(s, request), KeysOf(request.devices);
    forall i | 0 <= i < |keys| ensures keys[i] == (request.moduleId, id) {
      assert IsDeviceOf(request.devices[i], request.moduleId, report[i]);
    }
    OrderCounts(order, m);
    assert keys[0] in keys;
    assert held.Keys == {(request.moduleId, id)} && |held.Keys| == |held|;
  }
}
