/**
 How a sweep loses a MAC. The IP fallback hands a record to a device with another MAC, which then is no longer
 known; every situation of a sweep has an outcome, so whatever may happen does in one.
 */
module HistoryTakeover {
  import opened Options
  import opened Text
  import opened HistoryRecords
  import opened HistoryCleanup
  import opened HistorySweep
  import opened HistoryRetention
  import opened Sequences

  /** At step `i` the source hands a record to a device with another MAC. */
  ghost predicate TakesOver(m: Store, devs: seq<Device>, now: Time, picks: seq<Option<string>>, i: nat)
    requires |picks| == |devs|
  {
    && i < |devs| && devs[i].mac.Some? && picks[i].Some?
    && var st := Swept(m, devs[..i], now, picks[..i]);
    && Has(st, picks[i].value) && ValidMac(st[picks[i].value].mac)
    && Norm(st[picks[i].value].mac.value) != Norm(devs[i].mac.value)
  }

  // ---- Every situation has an outcome

  lemma PickExists(m: Store, d: Device) returns (pick: Option<string>)
    ensures Matches(m, d, pick)
  {
    if TargetKey(d) in m {
      pick := Some(TargetKey(d));
    } else if MacKnown(m, d) {
      var k :| Has(m, k) && SameMac(m[k], d);
      pick := Some(k);
    } else if IpKnown(m, d) {
      var k :| Has(m, k) && m[k].ip == d.ip;
      pick := Some(k);
    } else {
      pick := None;
    }
  }

  /** Good picks for the first entries extend to the whole sweep. */
  lemma {:induction false} PicksExtend(m: Store, devs: seq<Device>, now: Time, n: nat, first: seq<Option<string>>)
    returns (picks: seq<Option<string>>)
    requires n <= |devs| && GoodPicks(m, devs[..n], now, first)
    ensures GoodPicks(m, devs, now, picks) && picks[..n] == first
    decreases |devs| - n
  {
    if n == |devs| {
      assert devs[..n] == devs;
      picks := first;
    } else {
      var next := PicksOneMore(m, devs, now, n, first);
      picks := PicksExtend(m, devs, now, n + 1, next);
      assert picks[..n] == picks[..n + 1][..n];
    }
  }

  lemma PicksOneMore(m: Store, devs: seq<Device>, now: Time, n: nat, first: seq<Option<string>>)
    returns (next: seq<Option<string>>)
    requires n < |devs| && GoodPicks(m, devs[..n], now, first)
    ensures GoodPicks(m, devs[..n + 1], now, next) && next[..n] == first
  {
    var pick := PickExists(Swept(m, devs[..n], now, first), devs[n]);
    next := first + [pick];
    PickingOneMore(m, devs, now, n, first, pick);
  }

  lemma PickingOneMore(
    m: Store, devs: seq<Device>, now: Time, n: nat, first: seq<Option<string>>, pick: Option<string>)
    requires n < |devs| && GoodPicks(m, devs[..n], now, first) && Matches(Swept(m, devs[..n], now, first), devs[n], pick)
    ensures GoodPicks(m, devs[..n + 1], now, first + [pick])
  {
    var head, picks := devs[..n + 1], first + [pick];
    assert head[..n] == devs[..n] && picks[..n] == first;
    assert head[n] == devs[n] && picks[n] == pick && |head| == |picks| == n + 1;
  }

  lemma TakesAgree(picks: seq<Option<string>>, n: nat, first: seq<Option<string>>, pick: Option<string>)
    requires n < |picks| && |first| == n && picks[..n + 1] == first + [pick]
    ensures picks[..n] == first && picks[n] == pick
  {
    assert picks[..n] == picks[..n + 1][..n];
    assert picks[n] == picks[..n + 1][n];
  }

  lemma {:induction false} OrderExists(s: set<string>) returns (order: seq<string>)
    ensures NoDuplicates(order) && Elements(order) == s
  {
    if s == {} {
      order := [];
    } else {
      var x :| x in s;
      var rest := OrderExists(s - {x});
      order := rest + [x];
      AppendOne(rest, x);
      assert forall y :: y in rest ==> y in Elements(rest);
    }
  }

  lemma CleanupExists(before: Store) returns (after: Store)
    ensures CleanedUp(before, after)
  {
    var order := OrderExists(before.Keys);
    var mid := Rekeyed(before, order);
    var hosts: map<string, string> := map ip | ip in IpsWithMac(mid) :: AnyHost(mid, ip);
    assert IsHostTable(hosts, mid) by {
      assert forall k :: Has(mid, k) && BearsMac(mid[k]) ==> mid[k].ip in IpsWithMac(mid);
    }
    var ghosts := OrderExists(Ghosts(mid, hosts));
    after := AllAbsorbed(mid, ghosts, hosts);
    assert CleanedUpVia(before, order, hosts, ghosts, after);
  }

  ghost function IpsWithMac(m: Store): set<string> {
    set k | k in m && BearsMac(m[k]) :: m[k].ip
  }

  ghost function AnyHost(m: Store, ip: string): (k: string)
    requires ip in IpsWithMac(m)
    ensures Has(m, k) && BearsMac(m[k]) && m[k].ip == ip
  {
    var k :| k in m && BearsMac(m[k]) && m[k].ip == ip; k
  }

  /** Every store and every sweep have an outcome. */
  lemma ReconcileExists(before: Store, devs: seq<Device>, now: Time) returns (after: Store)
    ensures Reconciled(before, devs, now, after)
  {
    var picks := PicksExtend(before, devs, now, 0, []);
    after := CleanupExists(MissingMarked(Swept(before, devs, now, picks), SeenKeys(devs)));
    assert ReconciledVia(before, devs, now, picks, after);
  }

  // ---- Exactness

  lemma {:induction false} GoodPicksPrefix(m: Store, devs: seq<Device>, now: Time, picks: seq<Option<string>>, i: nat)
    requires GoodPicks(m, devs, now, picks) && i <= |devs|
    ensures GoodPicks(m, devs[..i], now, picks[..i])
    ensures i < |devs| ==> Matches(Swept(m, devs[..i], now, picks[..i]), devs[i], picks[i])
  {
    if i == |devs| {
      assert devs[..i] == devs && picks[..i] == picks;
    } else {
      var n := |devs| - 1;
      assert devs[..n][..i] == devs[..i] && picks[..n][..i] == picks[..i];
      assert devs[..n][..n] == devs[..n] && picks[..n][..n] == picks[..n];
      GoodPicksPrefix(m, devs[..n], now, picks[..n], i);
    }
  }

  /** Step `i` of the first loop. */
  lemma SweptNext(m: Store, devs: seq<Device>, now: Time, picks: seq<Option<string>>, i: nat)
    requires |picks| == |devs| && i < |devs|
    ensures Swept(m, devs[..i + 1], now, picks[..i + 1])
      == Applied(Swept(m, devs[..i], now, picks[..i]), devs[i], now, picks[i])
  {
    assert devs[..i + 1][..i] == devs[..i] && picks[..i + 1][..i] == picks[..i];
  }

  lemma GoodSweepTake(devs: seq<Device>, i: nat)
    requires GoodSweep(devs) && i <= |devs|
    ensures GoodSweep(devs[..i])
    ensures forall d :: d in devs[..i] ==> d in devs
  {
    assert forall d :: d in devs[..i] ==> d in devs;
  }

  /** A record that is found neither by key nor by MAC is still as it was when an entry on its IP comes. */
  lemma {:induction false} RecordWaits(
    m: Store, devs: seq<Device>, now: Time, picks: seq<Option<string>>, k: string, ip: string)
    requires GoodSweep(devs) && GoodPicks(m, devs, now, picks)
    requires Has(m, k) && m[k].ip == ip && k !in SeenKeys(devs)
    requires ValidMac(m[k].mac) ==> Norm(m[k].mac.value) !in SeenKeys(devs)
    requires forall d :: d in devs ==> d.ip != ip
    ensures Has(Swept(m, devs, now, picks), k) && Swept(m, devs, now, picks)[k] == m[k]
  {
    if devs != [] {
      var n := |devs| - 1;
      GoodSweepPrefix(devs);
      SeenKeysNext(devs);
      assert forall d :: d in devs[..n] ==> d in devs;
      assert devs[n] in devs;
      RecordWaits(m, devs[..n], now, picks[..n], k, ip);
      RecordIsPassed(Swept(m, devs[..n], now, picks[..n]), devs[n], now, picks[n], k);
    }
  }

  lemma RecordIsPassed(st: Store, d: Device, now: Time, pick: Option<string>, k: string)
    requires GoodDevice(d) && Matches(st, d, pick)
    requires Has(st, k) && st[k].ip != d.ip && TargetKey(d) != k
    requires ValidMac(st[k].mac) ==> TargetKey(d) != Norm(st[k].mac.value)
    ensures Has(Applied(st, d, now, pick), k) && Applied(st, d, now, pick)[k] == st[k]
  {
    assert d.mac.Some? ==> TargetKey(d) == Norm(d.mac.value);
    assert pick != Some(k);
  }

  /** A device whose MAC is unknown may be matched with any record on its IP. */
  lemma UnknownMatchesByIp(st: Store, d: Device, k: string)
    requires Tidy(st) && GoodDevice(d) && d.mac.Some? && !MacHeld(st, Norm(d.mac.value))
    requires Has(st, k) && st[k].ip == d.ip != ""
    ensures Matches(st, d, Some(k))
  {
    var key := Norm(d.mac.value);
    assert key in st ==> Has(st, key) && HoldsMac(st, key, key);
    assert forall h :: Has(st, h) && SameMac(st[h], d) ==> HoldsMac(st, h, key);
  }

  /** If entry `i` can take over record `k`, then some choice of matches makes it do so. */
  lemma TakeoverHappens(m: Store, devs: seq<Device>, now: Time, i: nat, k: string)
    returns (picks: seq<Option<string>>)
    requires Tidy(m) && GoodSweep(devs) && CanTakeOver(m, devs, i, k)
    ensures GoodPicks(m, devs, now, picks) && TakesOver(m, devs, now, picks, i) && picks[i] == Some(k)
    ensures Has(Swept(m, devs[..i], now, picks[..i]), k) && Swept(m, devs[..i], now, picks[..i])[k] == m[k]
  {
    GoodSweepTake(devs, i);
    var first := UnknowingPicks(m, devs[..i], now, Norm(devs[i].mac.value));
    RecordWaits(m, devs[..i], now, first, k, devs[i].ip);
    SweptStaysTidy(m, devs[..i], now, first);
    assert devs[i] in devs;
    UnknownMatchesByIp(Swept(m, devs[..i], now, first), devs[i], k);
    picks := PicksExtendWith(m, devs, now, i, first, Some(k));
  }

  /** Whatever is picked, a MAC that is unknown and not found stays unknown. */
  lemma UnknowingPicks(m: Store, devs: seq<Device>, now: Time, a: string) returns (picks: seq<Option<string>>)
    requires GoodSweep(devs) && !MacHeld(m, a) && a !in SeenKeys(devs)
    ensures GoodPicks(m, devs, now, picks) && !MacHeld(Swept(m, devs, now, picks), a)
  {
    assert devs[..0] == [] && devs[..|devs|] == devs;
    picks := PicksExtend(m, devs, now, 0, []);
    assert picks[..0] == [] && picks[..|devs|] == picks;
    LostStaysLost(m, devs, now, picks, 0, |devs|, a);
  }

  lemma PicksExtendWith(
    m: Store, devs: seq<Device>, now: Time, i: nat, first: seq<Option<string>>, pick: Option<string>)
    returns (picks: seq<Option<string>>)
    requires i < |devs| && GoodPicks(m, devs[..i], now, first) && Matches(Swept(m, devs[..i], now, first), devs[i], pick)
    ensures GoodPicks(m, devs, now, picks) && picks[..i] == first && picks[i] == pick
  {
    PickingOneMore(m, devs, now, i, first, pick);
    picks := PicksExtend(m, devs, now, i + 1, first + [pick]);
    TakesAgree(picks, i, first, pick);
  }

  // ---- What a takeover costs

  lemma {:induction false} LostStaysLost(
    m: Store, devs: seq<Device>, now: Time, picks: seq<Option<string>>, i: nat, j: nat, a: string)
    requires GoodSweep(devs) && GoodPicks(m, devs, now, picks) && i <= j <= |devs| && a !in SeenKeys(devs)
    requires !MacHeld(Swept(m, devs[..i], now, picks[..i]), a)
    ensures !MacHeld(Swept(m, devs[..j], now, picks[..j]), a)
  {
    if i < j {
      LostStaysLost(m, devs, now, picks, i, j - 1, a);
      GoodPicksPrefix(m, devs, now, picks, j - 1);
      SweptNext(m, devs, now, picks, j - 1);
      assert devs[j - 1] in devs;
      StepAddsNoMac(Swept(m, devs[..j - 1], now, picks[..j - 1]), devs[j - 1], now, picks[j - 1], a);
    }
  }

  lemma StepAddsNoMac(st: Store, d: Device, now: Time, pick: Option<string>, a: string)
    requires GoodDevice(d) && TargetKey(d) != a && Matches(st, d, pick)
    requires forall h :: HoldsMac(st, h, a) ==> pick == Some(h) && d.mac.Some?
    ensures !MacHeld(Applied(st, d, now, pick), a)
  {
    var st' := Applied(st, d, now, pick);
    AppliedTouchesOneKey(st, d, now, pick);
    assert d.mac.Some? ==> TargetKey(d) == Norm(d.mac.value);
    forall h ensures !HoldsMac(st', h, a) {
      assert pick.Some? ==> (HoldsMac(st, pick.value, a) ==> d.mac.Some?);
      assert HoldsMac(st, h, a) ==> pick == Some(h);
    }
  }

  lemma CleanupAddsNoMac(before: Store, after: Store, a: string)
    requires CleanedUp(before, after) && !MacHeld(before, a)
    ensures !MacHeld(after, a)
  {
    var p := (r: Record) => !(ValidMac(r.mac) && Norm(r.mac.value) == a);
    forall k | Has(before, k) ensures p(before[k]) {
      assert !HoldsMac(before, k, a);
    }
    CleanupPreserves(before, after, p);
    forall k ensures !HoldsMac(after, k, a) {
      assert Has(after, k) ==> p(after[k]);
    }
  }

  /**
   Retention does fail without the hypothesis: if a MAC is not found by the sweep and its record can be
   taken over, then there is an outcome of the sweep in which the MAC is no longer known.
   */
  lemma TakeoverForgets(m: Store, devs: seq<Device>, now: Time, i: nat, k: string) returns (after: Store)
    requires Tidy(m) && GoodSweep(devs) && CanTakeOver(m, devs, i, k)
    requires Norm(m[k].mac.value) !in SeenKeys(devs)
    ensures Reconciled(m, devs, now, after) && MacHeld(m, Norm(m[k].mac.value)) && !MacHeld(after, Norm(m[k].mac.value))
  {
    var a := Norm(m[k].mac.value);
    var picks := TakeoverHappens(m, devs, now, i, k);
    TakenMacIsLost(m, devs, now, picks, i, k);
    LostStaysLost(m, devs, now, picks, i + 1, |devs|, a);
    assert devs[..|devs|] == devs && picks[..|devs|] == picks;
    var st := Swept(m, devs, now, picks);
    assert forall h :: HoldsMac(MissingMarked(st, SeenKeys(devs)), h, a) ==> HoldsMac(st, h, a);
    after := CleanupExists(MissingMarked(st, SeenKeys(devs)));
    CleanupAddsNoMac(MissingMarked(st, SeenKeys(devs)), after, a);
    assert ReconciledVia(m, devs, now, picks, after);
    assert HoldsMac(m, k, a);
  }

  lemma TakenMacIsLost(m: Store, devs: seq<Device>, now: Time, picks: seq<Option<string>>, i: nat, k: string)
    requires Tidy(m) && GoodSweep(devs) && GoodPicks(m, devs, now, picks) && i < |devs|
    requires TakesOver(m, devs, now, picks, i) && picks[i] == Some(k)
    ensures !MacHeld(Swept(m, devs[..i + 1], now, picks[..i + 1]),
      Norm(Swept(m, devs[..i], now, picks[..i])[k].mac.value))
  {
    var st := Swept(m, devs[..i], now, picks[..i]);
    var a := Norm(st[k].mac.value);
    GoodPicksPrefix(m, devs, now, picks, i);
    GoodSweepTake(devs, i);
    SweptStaysTidy(m, devs[..i], now, picks[..i]);
    SweptNext(m, devs, now, picks, i);
    assert devs[i] in devs;
    assert forall h :: HoldsMac(st, h, a) ==> SharedMac(st[h], st[k]);
    StepAddsNoMac(st, devs[i], now, picks[i], a);
  }

  // ---- A concrete case

  lemma {:induction false} ContainsNeedsFirst(s: string, t: string)
    requires t != "" && Contains(s, t)
    ensures t[0] in s
  {
    if !(t <= s) {
      ContainsNeedsFirst(s[1..], t);
    }
  }

  /** A MAC in lower case is its own normal form, and valid. */
  lemma PlainMac(s: string)
    requires s != "" && PlainText(s)
    ensures Norm(s) == s && ValidMac(Some(s)) && MacKey(s)
  {
    assert s[0] != 'n';
    assert Trim(s) == s;
    forall i | 0 <= i < |s| ensures Lower(s)[i] == s[i] {
      assert s[i] in s;
    }
    assert Lower(s) == s;
    if Contains(s, "incomplete") {
      ContainsNeedsFirst(s, "incomplete");
    }
  }

  function PlainRecord(mac: string, ip: string): Record {
    Record("net-10-0-0-5", "Printer", Category("printer", None, None, None), ip, Some(mac), "lan",
      Details(None, None, None, None, None, None, None), [], "arp", ["arp"], 1, 2, true, true)
  }

  function PlainDevice(mac: string, ip: string): Device {
    Device("net-10-0-0-5", "Phone", Category("phone", None, None, None), ip, Some(mac), "lan",
      Details(None, None, None, None, None, None, None), [], "arp", ["arp"], None)
  }

  lemma PlainCaseIsTakeover(known: string, newcomer: string, ip: string)
    requires MacKey(known) && Norm(known) == known && ValidMac(Some(known))
    requires MacKey(newcomer) && Norm(newcomer) == newcomer && ValidMac(Some(newcomer))
    requires known != newcomer && ip != ""
    ensures var m, devs := map[known := PlainRecord(known, ip)], [PlainDevice(newcomer, ip)];
      && Canonical(m) && Tidy(m) && GoodSweep(devs) && CanTakeOver(m, devs, 0, known)
      && HoldsMac(m, known, known) && known !in SeenKeys(devs)
  {
    var m, devs := map[known := PlainRecord(known, ip)], [PlainDevice(newcomer, ip)];
    assert m[known] == PlainRecord(known, ip);
    assert Tidy(m);
    assert devs[..0] == [] && SeenKeys([]) == {};
    assert TargetKey(devs[0]) == newcomer;
    assert forall a, k :: HoldsMac(m, k, a) ==> a == known;
  }

  lemma PlainCaseForgets(known: string, newcomer: string, ip: string) returns (after: Store)
    requires MacKey(known) && Norm(known) == known && ValidMac(Some(known))
    requires MacKey(newcomer) && Norm(newcomer) == newcomer && ValidMac(Some(newcomer))
    requires known != newcomer && ip != ""
    ensures Reconciled(map[known := PlainRecord(known, ip)], [PlainDevice(newcomer, ip)], 3, after)
    ensures !MacHeld(after, known)
  {
    PlainCaseIsTakeover(known, newcomer, ip);
    after := TakeoverForgets(map[known := PlainRecord(known, ip)], [PlainDevice(newcomer, ip)], 3, 0, known);
  }

  predicate PlainText(s: string) {
    forall i :: 0 <= i < |s| ==> s[i] == ':' || '0' <= s[i] <= '9' || 'a' <= s[i] <= 'f'
  }

  lemma PlainCase(known: string, newcomer: string, ip: string) returns (after: Store)
    requires PlainText(known) && PlainText(newcomer) && known != "" && newcomer != ""
    requires known != newcomer && ip != ""
    ensures Reconciled(map[known := PlainRecord(known, ip)], [PlainDevice(newcomer, ip)], 3, after)
    ensures MacHeld(map[known := PlainRecord(known, ip)], known) && !MacHeld(after, known)
  {
    PlainMac(known);
    PlainMac(newcomer);
    PlainCaseIsTakeover(known, newcomer, ip);
    after := PlainCaseForgets(known, newcomer, ip);
  }

  /** A printer is known at 10.0.0.5; a phone the history has never seen shows up there, and the printer is forgotten. */
  lemma PrinterIsForgotten(printer: string, phone: string) returns (after: Store)
    requires printer == "aa:aa:aa:aa:aa:01" && phone == "bb:bb:bb:bb:bb:02"
    ensures Reconciled(map[printer := PlainRecord(printer, "10.0.0.5")], [PlainDevice(phone, "10.0.0.5")], 3, after)
    ensures MacHeld(map[printer := PlainRecord(printer, "10.0.0.5")], printer) && !MacHeld(after, printer)
  {
    assert printer[0] != phone[0];
    after := PlainCase(printer, phone, "10.0.0.5");
  }
}
