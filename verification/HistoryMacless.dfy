/**
 Where a swept device without a MAC ends. It is filed under its id, perhaps into a record that carries a MAC;
 from there the record may follow that MAC, move under it, or be absorbed by a record with a MAC on its IP.
 */
module HistoryMacless {
  import opened Options
  import opened Text
  import opened HistoryRecords
  import opened HistoryCleanup
  import opened HistorySweep
  import opened HistoryTakeover
  import opened Sequences

  /** The key occurs in the sweep after entry `i`. */
  predicate SeenAfter(devs: seq<Device>, i: nat, key: string) {
    i + 1 < |devs| && (TargetKey(devs[|devs| - 1]) == key || SeenAfter(devs[..|devs| - 1], i, key))
  }

  lemma {:induction false} SeenAfterIsSeen(devs: seq<Device>, i: nat, key: string)
    ensures SeenAfter(devs, i, key) <==> exists l: nat :: i < l < |devs| && TargetKey(devs[l]) == key
  {
    if i + 1 < |devs| {
      var n := |devs| - 1;
      SeenAfterIsSeen(devs[..n], i, key);
      assert forall l :: 0 <= l < n ==> devs[l] == devs[..n][l];
      assert TargetKey(devs[n]) == key ==> exists l: nat :: i < l < |devs| && TargetKey(devs[l]) == key;
      if l: nat :| i < l < n && TargetKey(devs[..n][l]) == key {
        assert TargetKey(devs[l]) == key;
      }
    }
  }

  /** Entry `i` has no MAC, and no later entry is filed under its id. */
  ghost predicate LastWithoutMac(devs: seq<Device>, i: nat) {
    i < |devs| && devs[i].mac.None? && !SeenAfter(devs, i, devs[i].deviceId)
  }

  /** The record that entry `i` wrote. */
  function Written(m: Store, devs: seq<Device>, now: Time, picks: seq<Option<string>>, i: nat): Record
    requires |picks| == |devs| && i < |devs|
  {
    var st, d := Swept(m, devs[..i], now, picks[..i]), devs[i];
    if picks[i].Some? && picks[i].value in st then Refreshed(st[picks[i].value], d, now) else Created(d, now)
  }

  /** A later entry has the MAC that the written record carries. */
  ghost predicate MacFollows(devs: seq<Device>, i: nat, r: Record) {
    ValidMac(r.mac) && SeenAfter(devs, i, Norm(r.mac.value))
  }

  /** In one later step the record is taken exactly by a device with the MAC it carries. */
  lemma TakenByItsMac(st: Store, e: Device, now: Time, pick: Option<string>, y: string)
    requires Tidy(st) && GoodDevice(e) && Matches(st, e, pick) && Has(st, y) && NetId(y)
    requires TargetKey(e) != y && (st[y].ip == e.ip ==> e.ip == "")
    ensures Has(Applied(st, e, now, pick), y) <==> !(ValidMac(st[y].mac) && TargetKey(e) == Norm(st[y].mac.value))
    ensures Has(Applied(st, e, now, pick), y) ==> Applied(st, e, now, pick)[y] == st[y]
  {
    if ValidMac(st[y].mac) && TargetKey(e) == Norm(st[y].mac.value) {
      MacHolderIsPicked(st, e, pick, y);
    }
  }

  /** Record `r` is still under `y` exactly if it has not followed its MAC. */
  ghost predicate Waits(st: Store, y: string, r: Record, gone: bool) {
    (Has(st, y) <==> !gone) && (Has(st, y) ==> st[y] == r)
  }

  lemma {:induction false} StaysOrFollows(
    m: Store, devs: seq<Device>, now: Time, picks: seq<Option<string>>, i: nat, r: Record)
    requires Tidy(m) && GoodSweep(devs) && GoodPicks(m, devs, now, picks) && LastWithoutMac(devs, i)
    requires r.ip == devs[i].ip && Waits(Swept(m, devs[..i + 1], now, picks[..i + 1]), devs[i].deviceId, r, false)
    ensures Waits(Swept(m, devs, now, picks), devs[i].deviceId, r, MacFollows(devs, i, r))
  {
    var n := |devs| - 1;
    if i == n {
      assert devs[..i + 1] == devs && picks[..i + 1] == picks;
    } else {
      LastAmongFewer(devs, i);
      assert devs[..n][..i + 1] == devs[..i + 1] && picks[..n][..i + 1] == picks[..i + 1];
      StaysOrFollows(m, devs[..n], now, picks[..n], i, r);
      SweptStaysTidy(m, devs[..n], now, picks[..n]);
      RecordPassed(Swept(m, devs[..n], now, picks[..n]), devs[n], now, picks[n],
        devs[i].deviceId, r, MacFollows(devs[..n], i, r));
    }
  }

  lemma LastAmongFewer(devs: seq<Device>, i: nat)
    requires GoodSweep(devs) && LastWithoutMac(devs, i) && i + 1 < |devs|
    ensures var n := |devs| - 1;
      && GoodSweep(devs[..n]) && LastWithoutMac(devs[..n], i) && GoodDevice(devs[n]) && NetId(devs[i].deviceId)
      && TargetKey(devs[n]) != devs[i].deviceId && (devs[i].ip == devs[n].ip ==> devs[n].ip == "")
  {
    GoodSweepPrefix(devs);
    assert GoodDevice(devs[i]) && devs[i] in devs[..|devs| - 1];
  }

  /**
   In the first loop, what entry `i` wrote stays under its id as it was, unless a later entry has the MAC that
   the record carries; then it has left.
   */
  lemma WrittenWaits(m: Store, devs: seq<Device>, now: Time, picks: seq<Option<string>>, i: nat)
    requires Tidy(m) && GoodSweep(devs) && GoodPicks(m, devs, now, picks) && LastWithoutMac(devs, i)
    ensures var r := Written(m, devs, now, picks, i);
      Waits(Swept(m, devs, now, picks), devs[i].deviceId, r, MacFollows(devs, i, r))
  {
    WrittenFirst(m, devs, now, picks, i);
    StaysOrFollows(m, devs, now, picks, i, Written(m, devs, now, picks, i));
  }

  lemma WrittenFirst(m: Store, devs: seq<Device>, now: Time, picks: seq<Option<string>>, i: nat)
    requires |picks| == |devs| && i < |devs| && devs[i].mac.None?
    ensures var r := Written(m, devs, now, picks, i);
      r.ip == devs[i].ip && Waits(Swept(m, devs[..i + 1], now, picks[..i + 1]), devs[i].deviceId, r, false)
  {
    SweptNext(m, devs, now, picks, i);
  }

  lemma RecordPassed(st: Store, e: Device, now: Time, pick: Option<string>, y: string, r: Record, gone: bool)
    requires Tidy(st) && GoodDevice(e) && Matches(st, e, pick) && NetId(y)
    requires TargetKey(e) != y && (r.ip == e.ip ==> e.ip == "") && Waits(st, y, r, gone)
    ensures Waits(Applied(st, e, now, pick), y, r, gone || (ValidMac(r.mac) && TargetKey(e) == Norm(r.mac.value)))
  {
    if Has(st, y) {
      TakenByItsMac(st, e, now, pick, y);
    }
  }

  // ---- After clean-up

  /** What the sweep leaves before clean-up. */
  function Marked(m: Store, devs: seq<Device>, now: Time, picks: seq<Option<string>>): Store
    requires |picks| == |devs|
  {
    MissingMarked(Swept(m, devs, now, picks), SeenKeys(devs))
  }

  lemma WrittenIsMarked(m: Store, devs: seq<Device>, now: Time, picks: seq<Option<string>>, i: nat)
    requires Tidy(m) && GoodSweep(devs) && GoodPicks(m, devs, now, picks) && LastWithoutMac(devs, i)
    ensures var y, r := devs[i].deviceId, Written(m, devs, now, picks, i);
      && (Has(Marked(m, devs, now, picks), y) <==> !MacFollows(devs, i, r))
      && (Has(Marked(m, devs, now, picks), y) ==> Marked(m, devs, now, picks)[y] == r)
      && WrittenBy(r, devs[i]) && y in SeenKeys(devs)
    ensures Tidy(Marked(m, devs, now, picks))
  {
    WrittenWaits(m, devs, now, picks, i);
    assert devs[i] in devs && TargetKey(devs[i]) == devs[i].deviceId;
    SweptStaysTidy(m, devs, now, picks);
    MarkingStaysTidy(Swept(m, devs, now, picks), SeenKeys(devs));
  }

  /** A swept record that is alone on its proper key and bears a MAC ends there with its IP and activity. */
  lemma LonelyHolderEnds(
    m: Store, devs: seq<Device>, now: Time, picks: seq<Option<string>>, after: Store, y: string)
    requires Canonical(m) && GoodSweep(devs) && GoodPicks(m, devs, now, picks)
    requires CleanedUp(Marked(m, devs, now, picks), after) && Has(Marked(m, devs, now, picks), y) && y in SeenKeys(devs)
    requires var marked := Marked(m, devs, now, picks);
      marked[y].mac.Some? && forall j :: Has(marked, j) && KeyOf(marked[j]) == KeyOf(marked[y]) ==> j == y
    ensures var r := Marked(m, devs, now, picks)[y];
      Has(after, KeyOf(r)) && SameHolder(r, after[KeyOf(r)]) && after[KeyOf(r)].isActive == r.isActive
  {
    var marked := Marked(m, devs, now, picks);
    var order, hosts, ghosts :| CleanedUpVia(marked, order, hosts, ghosts, after);
    var a, mid := KeyOf(marked[y]), Rekeyed(marked, order);
    LonelyRecordIsMoved(marked, order, y);
    AbsorbingKeepsHolders(mid, ghosts, hosts);
    forall g | g in Ghosts(mid, hosts) && mid[g].ip == mid[a].ip ensures !mid[g].isActive {
      GhostsOfSweptAreInactive(m, devs, now, picks, y, order, g);
    }
    AbsorbingInactive(mid, ghosts, hosts, a);
    assert Has(after, a);
  }

  /**
   A device without a MAC that was matched with a record carrying one ends under that MAC, with its IP and
   activity, unless a later entry has the MAC: then the record has followed the MAC.
   */
  lemma MaclessJoinsItsMac(
    m: Store, devs: seq<Device>, now: Time, picks: seq<Option<string>>, after: Store, i: nat)
    requires Canonical(m) && Tidy(m) && GoodSweep(devs) && ReconciledVia(m, devs, now, picks, after)
    requires LastWithoutMac(devs, i) && ValidMac(Written(m, devs, now, picks, i).mac)
    ensures var a := Norm(Written(m, devs, now, picks, i).mac.value);
      if SeenAfter(devs, i, a) then LastFor(devs, a).Some? && Has(after, a) && WrittenBy(after[a], LastFor(devs, a).value)
      else Has(after, a) && WrittenBy(after[a], devs[i])
  {
    var y, r := devs[i].deviceId, Written(m, devs, now, picks, i);
    var a, marked := Norm(r.mac.value), Marked(m, devs, now, picks);
    WrittenIsMarked(m, devs, now, picks, i);
    if SeenAfter(devs, i, a) {
      SeenAfterIsSeen(devs, i, a);
      var l: nat :| i < l < |devs| && TargetKey(devs[l]) == a;
      WrittenMacIsNoId(m, devs, now, picks, i);
      assert devs[l] in devs && GoodDevice(devs[l]) && devs[l].mac.Some?;
      SweptMacEndsUnderItsKey(m, devs, now, after, devs[l]);
    } else {
      forall j | Has(marked, j) && KeyOf(marked[j]) == a ensures j == y {
        assert SharedMac(marked[j], marked[y]);
      }
      LonelyHolderEnds(m, devs, now, picks, after, y);
    }
  }

  lemma WrittenMacIsNoId(m: Store, devs: seq<Device>, now: Time, picks: seq<Option<string>>, i: nat)
    requires Tidy(m) && GoodSweep(devs) && GoodPicks(m, devs, now, picks) && i < |devs|
    ensures ValidMac(Written(m, devs, now, picks, i).mac) ==> MacKey(Norm(Written(m, devs, now, picks, i).mac.value))
  {
    GoodPicksPrefix(m, devs, now, picks, i);
    GoodSweepTake(devs, i);
    SweptStaysTidy(m, devs[..i], now, picks[..i]);
    assert devs[i] in devs && GoodDevice(devs[i]);
    assert picks[i].Some? ==> Has(Swept(m, devs[..i], now, picks[..i]), picks[i].value);
  }

  // ---- Without any MAC

  /** No entry without a MAC sits on the IP of a record without one that has another id. */
  ghost predicate IdsFollowIps(m: Store, devs: seq<Device>) {
    forall e, k :: e in devs && e.mac.None? && Has(m, k) && !ValidMac(m[k].mac) && m[k].ip == e.ip != "" ==>
      k == TargetKey(e)
  }

  /** Records without a MAC sit under their own id. */
  ghost predicate OwnIds(st: Store) {
    forall k :: Has(st, k) && !ValidMac(st[k].mac) ==> st[k].deviceId == k
  }

  lemma {:induction false} SweptKeepsOwnIds(m: Store, devs: seq<Device>, now: Time, picks: seq<Option<string>>)
    requires OwnIds(m) && IdsFollowIps(m, devs) && GoodSweep(devs) && GoodPicks(m, devs, now, picks)
    ensures OwnIds(Swept(m, devs, now, picks))
  {
    if devs != [] {
      var n := |devs| - 1;
      GoodSweepPrefix(devs);
      assert devs[n] in devs && forall d :: d in devs[..n] ==> d in devs;
      SweptKeepsOwnIds(m, devs[..n], now, picks[..n]);
      SweptIsAccounted(m, devs[..n], now, picks[..n]);
      var st := Swept(m, devs[..n], now, picks[..n]);
      if picks[n].Some? && devs[n].mac.None? && Has(st, picks[n].value) && !ValidMac(st[picks[n].value].mac) {
        OwnIdIsPicked(m, devs, st, picks[n].value);
      }
      AppliedKeepsOwnIds(st, devs[n], now, picks[n]);
    }
  }

  lemma AppliedKeepsOwnIds(st: Store, e: Device, now: Time, pick: Option<string>)
    requires OwnIds(st) && GoodDevice(e) && Matches(st, e, pick)
    requires pick.Some? && e.mac.None? && Has(st, pick.value) && !ValidMac(st[pick.value].mac) ==> pick.value == TargetKey(e)
    ensures OwnIds(Applied(st, e, now, pick))
  {
    AppliedTouchesOneKey(st, e, now, pick);
    assert pick.Some? ==> Has(st, pick.value);
  }

  /** An entry without a MAC that is matched with a record without one is matched with that of its own id. */
  lemma OwnIdIsPicked(m: Store, devs: seq<Device>, st: Store, p: string)
    requires devs != [] && IdsFollowIps(m, devs) && GoodSweep(devs) && Accounted(m, devs[..|devs| - 1], st)
    requires var e := devs[|devs| - 1];
      Matches(st, e, Some(p)) && Has(st, p) && !ValidMac(st[p].mac) && e.mac.None?
    ensures p == TargetKey(devs[|devs| - 1])
  {
    var n := |devs| - 1;
    GoodSweepPrefix(devs);
    assert devs[n] in devs;
    if p != TargetKey(devs[n]) {
      LastForIsLast(devs[..n], p);
    }
  }

  /** The record has all the evidence of `w`. */
  ghost predicate Carries(r: Record, w: Record) {
    Join(EvidenceOf(w), EvidenceOf(r)) == EvidenceOf(r)
  }

  /** What carries `w` is active if `w` is. */
  lemma CarryingIsActive(r: Record, w: Record)
    requires Carries(r, w)
    ensures w.isActive ==> r.isActive
  {
    assert Join(EvidenceOf(w), EvidenceOf(r)).active == (EvidenceOf(w).active || EvidenceOf(r).active);
  }

  lemma MergingCarries(t: Record, o: Record, w: Record)
    ensures Carries(t, t) && Carries(Merged(t, o), t) && Carries(Merged(t, o), o)
    ensures Carries(t, w) || Carries(o, w) ==> Carries(Merged(t, o), w)
  {
    var x, y, z := EvidenceOf(w), EvidenceOf(t), EvidenceOf(o);
    MergeJoinsEvidence(t, o);
    JoinIsSemilattice(x, y, z);
    JoinIsSemilattice(y, z, y);
    JoinIsSemilattice(y, y, z);
    JoinIsSemilattice(z, y, z);
    JoinSwaps(z, y, z);
    JoinSwaps(x, y, z);
  }

  /**
   If ids follow IPs, a device without a MAC that was not matched with a record carrying one ends under its own id,
   with its IP, activity and evidence; or a record with a MAC on its IP has absorbed it with all its evidence, and is
   active if the device is. It keeps a record of its own if and only if there is no such record.
   */
  lemma MaclessEndsUnderItsId(
    m: Store, devs: seq<Device>, now: Time, picks: seq<Option<string>>, after: Store, i: nat)
    requires Canonical(m) && Tidy(m) && GoodSweep(devs) && IdsFollowIps(m, devs)
    requires ReconciledVia(m, devs, now, picks, after) && LastWithoutMac(devs, i)
    requires !ValidMac(Written(m, devs, now, picks, i).mac)
    ensures var d, w := devs[i], Written(m, devs, now, picks, i);
      var hosted := Roams(w) && exists h :: HostOn(after, h, d.ip);
      && (Has(after, d.deviceId) <==> !hosted)
      && (Has(after, d.deviceId) ==> WrittenBy(after[d.deviceId], d) && Carries(after[d.deviceId], w))
      && (hosted ==> exists h :: HostOn(after, h, d.ip) && Carries(after[h], w) && (ActiveIn(d) ==> after[h].isActive))
  {
    var y, r, marked := devs[i].deviceId, Written(m, devs, now, picks, i), Marked(m, devs, now, picks);
    WrittenIsMarked(m, devs, now, picks, i);
    SweptKeepsOwnIds(m, devs, now, picks);
    assert devs[i] in devs && NetId(y) && GoodDevice(devs[i]);
    forall j | Has(marked, j) && KeyOf(marked[j]) == KeyOf(marked[y]) ensures j == y {
      assert Has(Swept(m, devs, now, picks), j) && ToldApart(marked[j].mac, marked[j].deviceId);
    }
    assert Has(Swept(m, devs, now, picks), y);
    if r.mac.None? {
      CleanupOfMacless(marked, after, y);
    } else {
      LonelyHolderEnds(m, devs, now, picks, after, y);
      CleanupCarries(marked, after, y);
    }
  }

  /**
   Whatever the ids: unless its record follows a MAC, all the evidence of what such a device left ends under the key
   of its record, or in a record with a MAC that sits on the IP of some record filed under that key.
   */
  lemma MaclessIsNeverDropped(
    m: Store, devs: seq<Device>, now: Time, picks: seq<Option<string>>, after: Store, i: nat)
    requires Tidy(m) && GoodSweep(devs) && ReconciledVia(m, devs, now, picks, after) && LastWithoutMac(devs, i)
    requires !MacFollows(devs, i, Written(m, devs, now, picks, i))
    ensures var w := Written(m, devs, now, picks, i);
      exists k :: CarriedAt(Marked(m, devs, now, picks), after, w, k) && (ActiveIn(devs[i]) ==> after[k].isActive)
  {
    var y, marked := devs[i].deviceId, Marked(m, devs, now, picks);
    WrittenIsMarked(m, devs, now, picks, i);
    var k := CarrierExists(marked, after, y);
    CarryingIsActive(after[k], marked[y]);
  }

  /** Record `k` carries `w`: under the key of `w`, or on the IP of a record that belongs under that key. */
  ghost predicate CarriedAt(before: Store, after: Store, w: Record, k: string) {
    && Has(after, k) && Carries(after[k], w)
    && (k == KeyOf(w) || exists j :: Has(before, j) && KeyOf(before[j]) == KeyOf(w) && HostOn(after, k, before[j].ip))
  }

  /** Every record is carried on by some record after clean-up. */
  lemma CarrierExists(before: Store, after: Store, y: string) returns (k: string)
    requires CleanedUp(before, after) && Has(before, y)
    ensures CarriedAt(before, after, before[y], k)
  {
    var order, hosts, ghosts :| CleanedUpVia(before, order, hosts, ghosts, after);
    var mid, key := Rekeyed(before, order), KeyOf(before[y]);
    RekeyingCarries(before, order, y);
    if key in Ghosts(mid, hosts) {
      AbsorbingHandsOn(mid, ghosts, hosts, key);
      k := hosts[mid[key].ip];
      CarriesFurther(after[k], mid[key], before[y]);
      var j := RekeyedIpOrigin(before, order, key);
      assert Has(before, j);
    } else {
      AbsorbingCarries(mid, ghosts, hosts, key);
      k := key;
      CarriesFurther(after[k], mid[key], before[y]);
    }
  }

  lemma CarriesFurther(a: Record, b: Record, c: Record)
    requires Carries(a, b) && Carries(b, c)
    ensures Carries(a, c)
  {
    JoinIsSemilattice(EvidenceOf(c), EvidenceOf(b), EvidenceOf(a));
  }

  lemma RekeyingCarries(before: Store, order: seq<string>, y: string)
    requires IsOrder(order, before) && Has(before, y)
    ensures var mid, key := Rekeyed(before, order), KeyOf(before[y]);
      key in mid && Carries(mid[key], before[y])
  {
    var mid, key := Rekeyed(before, order), KeyOf(before[y]);
    RekeyingIsOrderBlind(before, order, key);
    DrainedAll(before, order);
    var part := Under(before, key);
    assert y in part;
    StoreEvidenceSplit(part, y);
    JoinIsSemilattice(EvidenceOf(before[y]), EvidenceOf(before[y]), StoreEvidence(part - {y}));
  }

  /** A record that is no ghost carries on what it was. */
  lemma AbsorbingCarries(m: Store, ghosts: seq<string>, hosts: map<string, string>, a: string)
    requires IsHostTable(hosts, m) && IsGhostList(ghosts, m, hosts) && a in m && a !in Ghosts(m, hosts)
    ensures Has(AllAbsorbed(m, ghosts, hosts), a) && Carries(AllAbsorbed(m, ghosts, hosts)[a], m[a])
  {
    forall t: Record, g: Record | Carries(t, m[a]) ensures Carries(Merged(t, g), m[a]) {
      MergingCarries(t, g, m[a]);
    }
    MergingCarries(m[a], m[a], m[a]);
    AbsorbingAdvances(m, ghosts, hosts, a, (g: Record) => true, (r: Record, t: Record) => Carries(t, r));
  }

  /** A record that is alone on its key and ends there is carried on there. */
  lemma CleanupCarries(before: Store, after: Store, y: string)
    requires CleanedUp(before, after) && Has(before, y) && before[y].mac.Some?
    requires forall j :: Has(before, j) && KeyOf(before[j]) == KeyOf(before[y]) ==> j == y
    ensures Has(after, KeyOf(before[y])) && Carries(after[KeyOf(before[y])], before[y])
  {
    forall t: Record, g: Record | Carries(t, before[y]) ensures Carries(Merged(t, g), before[y]) {
      MergingCarries(t, g, before[y]);
    }
    MergingCarries(before[y], before[y], before[y]);
    CleanupAdvances(before, after, y, (r: Record, t: Record) => Carries(t, r));
  }

  ghost predicate HostOn(m: Store, h: string, ip: string) {
    Has(m, h) && BearsMac(m[h]) && m[h].ip == ip
  }

  lemma CleanupOfMacless(before: Store, after: Store, y: string)
    requires CleanedUp(before, after) && Has(before, y) && before[y].mac.None? && before[y].deviceId == y
    requires forall j :: Has(before, j) && KeyOf(before[j]) == KeyOf(before[y]) ==> j == y
    ensures var r := before[y];
      var hosted := r.ip != "" && exists h :: HostOn(after, h, r.ip);
      && (Has(after, y) <==> !hosted) && (Has(after, y) ==> after[y] == r && Carries(after[y], r))
      && (hosted ==> exists h :: HostOn(after, h, r.ip) && Carries(after[h], r) && (r.isActive ==> after[h].isActive))
  {
    var order, hosts, ghosts :| CleanedUpVia(before, order, hosts, ghosts, after);
    var mid, r := Rekeyed(before, order), before[y];
    LonelyRecordIsMoved(before, order, y);
    AbsorbingKeepsHolders(mid, ghosts, hosts);
    MergingCarries(r, r, r);
    assert Has(mid, y);
    if y in Ghosts(mid, hosts) {
      AbsorbingHandsOn(mid, ghosts, hosts, y);
      assert HostOn(after, hosts[r.ip], r.ip);
      CarryingIsActive(after[hosts[r.ip]], r);
    } else {
      forall h | HostOn(after, h, r.ip) ensures r.ip !in hosts ==> false {
        assert Has(mid, h) && BearsMac(mid[h]);
      }
    }
  }

  /** The host of an absorbed ghost stays, with all the evidence of the ghost. */
  lemma {:induction false} AbsorbingHandsOn(m: Store, ghosts: seq<string>, hosts: map<string, string>, g: string)
    requires IsHostTable(hosts, m) && NoDuplicates(ghosts) && Elements(ghosts) <= Ghosts(m, hosts) && g in Elements(ghosts)
    ensures var h, after := hosts[m[g].ip], AllAbsorbed(m, ghosts, hosts);
      HostOn(after, h, m[g].ip) && Carries(after[h], m[g])
  {
    Prefix(ghosts);
    var init, x := ghosts[..|ghosts| - 1], ghosts[|ghosts| - 1];
    var h, mid := hosts[m[g].ip], AllAbsorbed(m, init, hosts);
    AbsorbingNext(m, ghosts, hosts);
    AbsorbingKeepsHolders(m, ghosts, hosts);
    HostOf(m, hosts, g);
    assert Has(m, h) && Has(AllAbsorbed(m, ghosts, hosts), h);
    if g != x {
      AbsorbingHandsOn(m, init, hosts, g);
    }
    MergingCarries(mid[hosts[m[x].ip]], m[x], m[g]);
  }
}
