/**
 Exactly which MACs a sweep may forget. A device that takes over a record may push out another one, which
 takes over a third when its turn comes; the last MAC of such a chain is lost.
 */
module HistoryChains {
  import opened Options
  import opened Text
  import opened HistoryRecords
  import opened HistoryCleanup
  import opened HistorySweep
  import opened HistoryRetention
  import opened HistoryTakeover

  function MacAt(devs: seq<Device>, i: nat): string {
    if i < |devs| && devs[i].mac.Some? then Norm(devs[i].mac.value) else ""
  }

  /** Record `k` has another MAC than entry `i`, sits on its IP, and neither was found earlier in the sweep. */
  ghost predicate Fits(m: Store, devs: seq<Device>, i: nat, k: string) {
    && i < |devs| && devs[i].mac.Some? && devs[i].ip != ""
    && Has(m, k) && ValidMac(m[k].mac) && m[k].ip == devs[i].ip && Norm(m[k].mac.value) != MacAt(devs, i)
    && SeenKeys(devs[..i]) !! {k, Norm(m[k].mac.value), MacAt(devs, i)}
  }

  /**
   One of the first `n` entries can take over the record of the MAC `a`: its own MAC is unknown, or is a known
   one whose record an earlier entry can take over.
   */
  ghost predicate CanLose(m: Store, devs: seq<Device>, n: nat, a: string)
    decreases n
  {
    exists i: nat, k :: i < n && HoldsMac(m, k, a) && Fits(m, devs, i, k)
      && (MacHeld(m, MacAt(devs, i)) ==> CanLose(m, devs, i, MacAt(devs, i)))
  }

  ghost predicate CanTakeInTurn(m: Store, devs: seq<Device>, i: nat, k: string) {
    Fits(m, devs, i, k) && (MacHeld(m, MacAt(devs, i)) ==> CanLose(m, devs, i, MacAt(devs, i)))
  }

  lemma TakingEntry(m: Store, devs: seq<Device>, n: nat, a: string) returns (i: nat, k: string)
    requires CanLose(m, devs, n, a)
    ensures i < n && HoldsMac(m, k, a) && CanTakeInTurn(m, devs, i, k)
  {
    i, k :| i < n && HoldsMac(m, k, a) && Fits(m, devs, i, k)
      && (MacHeld(m, MacAt(devs, i)) ==> CanLose(m, devs, i, MacAt(devs, i)));
  }

  // ---- What can be lost is lost in some outcome

  lemma {:induction false} LosingPicks(m: Store, devs: seq<Device>, now: Time, n: nat, a: string)
    returns (picks: seq<Option<string>>)
    requires Tidy(m) && GoodSweep(devs) && n <= |devs| && CanLose(m, devs, n, a) && a !in SeenKeys(devs[..n])
    ensures GoodPicks(m, devs[..n], now, picks) && !MacHeld(Swept(m, devs[..n], now, picks), a)
    decreases n, 0
  {
    var i, k := TakingEntry(m, devs, n, a);
    var first := FreeingPicks(m, devs, now, i, k);
    GoodSweepTake(devs, n);
    assert devs[..n][..i] == devs[..i] && devs[..n][i] == devs[i];
    picks := TakingPicks(m, devs[..n], now, first, i, k);
  }

  /** An entry that takes over a record loses the record's MAC for good, if the MAC is not found. */
  lemma TakingPicks(m: Store, devs: seq<Device>, now: Time, first: seq<Option<string>>, i: nat, k: string)
    returns (picks: seq<Option<string>>)
    requires Tidy(m) && GoodSweep(devs) && Fits(m, devs, i, k) && Norm(m[k].mac.value) !in SeenKeys(devs)
    requires GoodPicks(m, devs[..i], now, first)
    requires var st := Swept(m, devs[..i], now, first);
      Matches(st, devs[i], Some(k)) && Has(st, k) && st[k] == m[k]
    ensures GoodPicks(m, devs, now, picks) && !MacHeld(Swept(m, devs, now, picks), Norm(m[k].mac.value))
  {
    picks := PicksExtendWith(m, devs, now, i, first, Some(k));
    assert TakesOver(m, devs, now, picks, i);
    TakenMacIsLost(m, devs, now, picks, i, k);
    LostStaysLost(m, devs, now, picks, i + 1, |devs|, Norm(m[k].mac.value));
    assert devs[..|devs|] == devs && picks[..|devs|] == picks;
  }

  /** Picks for the entries before `i` after which entry `i` may be matched with record `k`, still as it was. */
  lemma {:induction false} FreeingPicks(m: Store, devs: seq<Device>, now: Time, i: nat, k: string)
    returns (first: seq<Option<string>>)
    requires Tidy(m) && GoodSweep(devs) && CanTakeInTurn(m, devs, i, k)
    ensures GoodPicks(m, devs[..i], now, first)
    ensures var st := Swept(m, devs[..i], now, first);
      Matches(st, devs[i], Some(k)) && Has(st, k) && st[k] == m[k]
    decreases i, 1
  {
    var d, key, before := devs[i], Norm(devs[i].mac.value), devs[..i];
    GoodSweepTake(devs, i);
    assert d in devs;
    if MacHeld(m, key) {
      first := LosingPicks(m, devs, now, i, key);
    } else {
      first := UnknowingPicks(m, before, now, key);
    }
    RecordWaits(m, before, now, first, k, d.ip);
    SweptStaysTidy(m, before, now, first);
    UnknownMatchesByIp(Swept(m, before, now, first), d, k);
  }

  // ---- What is lost could be lost

  /** A MAC that loses its record in a step was taken over by a device whose MAC was unknown then. */
  lemma LosingStep(st: Store, d: Device, now: Time, pick: Option<string>, a: string) returns (h: string)
    requires Tidy(st) && GoodDevice(d) && Matches(st, d, pick)
    requires MacHeld(st, a) && !MacHeld(Applied(st, d, now, pick), a)
    ensures HoldsMac(st, h, a) && pick == Some(h) && d.mac.Some? && Norm(d.mac.value) != a
    ensures st[h].ip == d.ip != "" && Norm(d.mac.value) !in st && !MacHeld(st, Norm(d.mac.value))
  {
    var st' := Applied(st, d, now, pick);
    h :| HoldsMac(st, h, a);
    assert !HoldsMac(st', h, a) && !HoldsMac(st', TargetKey(d), a);
    PickedHolder(st, d, pick, h, a);
    var key := TargetKey(d);
    assert key in st ==> key == h;
  }

  /** A record matched by IP was not written earlier in the sweep. */
  lemma TakenIsUntouched(m: Store, devs: seq<Device>, st: Store, d: Device, h: string)
    requires Accounted(m, devs, st) && Has(st, h) && st[h].ip == d.ip != ""
    requires forall x :: x in devs && x.ip == d.ip ==> x.ip == ""
    ensures Has(m, h) && st[h] == m[h] && h !in SeenKeys(devs)
  {
    LastForIsLast(devs, h);
  }

  lemma {:induction false} LostWasTaken(
    m: Store, devs: seq<Device>, now: Time, picks: seq<Option<string>>, n: nat, a: string)
    requires Tidy(m) && GoodSweep(devs) && GoodPicks(m, devs, now, picks) && n <= |devs|
    requires MacHeld(m, a) && a !in SeenKeys(devs[..n])
    requires !MacHeld(Swept(m, devs[..n], now, picks[..n]), a)
    ensures CanLose(m, devs, n, a)
    decreases n
  {
    if n > 0 {
      var i := n - 1;
      assert devs[..n] == devs[..i] + [devs[i]];
      if !MacHeld(Swept(m, devs[..i], now, picks[..i]), a) {
        LostWasTaken(m, devs, now, picks, i, a);
        var j, k := TakingEntry(m, devs, i, a);
      } else {
        var h := LostAt(m, devs, now, picks, i, a);
        var key := Norm(devs[i].mac.value);
        if MacHeld(m, key) {
          LostWasTaken(m, devs, now, picks, i, key);
        }
        assert CanTakeInTurn(m, devs, i, h);
      }
    }
  }

  /** A record matched by IP with a device whose MAC is unknown then fits it before the sweep. */
  lemma PickedFits(m: Store, devs: seq<Device>, now: Time, picks: seq<Option<string>>, i: nat, h: string, a: string)
    requires Tidy(m) && GoodSweep(devs) && GoodPicks(m, devs, now, picks) && i < |devs| && devs[i].mac.Some?
    requires var st := Swept(m, devs[..i], now, picks[..i]);
      && Tidy(st) && HoldsMac(st, h, a) && st[h].ip == devs[i].ip != "" && a != MacAt(devs, i)
      && !MacHeld(st, MacAt(devs, i))
    ensures HoldsMac(m, h, a) && Fits(m, devs, i, h)
  {
    var before := devs[..i];
    var st := Swept(m, before, now, picks[..i]);
    SplitAt(devs, i);
    GoodPicksPrefix(m, devs, now, picks, i);
    SweptIsAccounted(m, before, now, picks[..i]);
    TakenIsUntouched(m, before, st, devs[i], h);
    SweptMacsArrive(m, before, now, picks[..i]);
    SeenMacsAreHeld(before, st, a) by {
      assert ToldApart(st[h].mac, st[h].deviceId);
    }
    AbsentIsUnseen(before, st, MacAt(devs, i)) by {
      assert MacAt(devs, i) in st ==> HoldsMac(st, MacAt(devs, i), MacAt(devs, i));
    }
  }

  lemma LostAt(m: Store, devs: seq<Device>, now: Time, picks: seq<Option<string>>, i: nat, a: string) returns (h: string)
    requires Tidy(m) && GoodSweep(devs) && GoodPicks(m, devs, now, picks) && i < |devs|
    requires MacHeld(Swept(m, devs[..i], now, picks[..i]), a)
    requires !MacHeld(Swept(m, devs[..i + 1], now, picks[..i + 1]), a)
    ensures HoldsMac(m, h, a) && Fits(m, devs, i, h)
    ensures !MacHeld(Swept(m, devs[..i], now, picks[..i]), MacAt(devs, i))
  {
    SplitAt(devs, i);
    GoodPicksPrefix(m, devs, now, picks, i);
    SweptNext(m, devs, now, picks, i);
    SweptStaysTidy(m, devs[..i], now, picks[..i]);
    h := LosingStep(Swept(m, devs[..i], now, picks[..i]), devs[i], now, picks[i], a);
    PickedFits(m, devs, now, picks, i, h, a);
  }

  lemma SplitAt(devs: seq<Device>, i: nat)
    requires GoodSweep(devs) && i < |devs|
    ensures GoodSweep(devs[..i]) && GoodDevice(devs[i]) && SeenKeys(devs[..i]) <= SeenKeys(devs[..i + 1])
    ensures forall x :: x in devs[..i] && x.ip == devs[i].ip ==> x.ip == ""
    ensures devs[i].mac.Some? ==> MacKey(Norm(devs[i].mac.value))
  {
    GoodSweepTake(devs, i + 1);
    GoodSweepPrefix(devs[..i + 1]);
    SeenKeysNext(devs[..i + 1]);
    assert devs[..i + 1][..i] == devs[..i];
  }

  lemma AbsentIsUnseen(devs: seq<Device>, st: Store, key: string)
    requires GoodSweep(devs) && MacKey(key) && key !in st
    requires forall d :: d in devs && d.mac.Some? ==> Has(st, TargetKey(d))
    ensures key !in SeenKeys(devs)
  {
    forall d | d in devs ensures TargetKey(d) != key {
      assert GoodDevice(d);
    }
  }

  // ---- The result

  lemma CleanupKeepsMacs(before: Store, after: Store, a: string)
    requires Tidy(before) && CleanedUp(before, after) && MacHeld(before, a)
    ensures MacHeld(after, a)
  {
    var k :| HoldsMac(before, k, a);
    assert forall j :: Has(before, j) && KeyOf(before[j]) == KeyOf(before[k]) ==> SharedMac(before[j], before[k]);
    CleanupAdvances(before, after, k, (r: Record, t: Record) => t.mac == r.mac);
    assert HoldsMac(after, KeyOf(before[k]), a);
  }

  /**
   A sweep may forget a known MAC if and only if it does not find the MAC, and some entry can take over its
   record in turn, at the end of however long a chain.
   */
  lemma ForgetsExactly(m: Store, devs: seq<Device>, now: Time, a: string)
    requires Tidy(m) && GoodSweep(devs) && MacHeld(m, a)
    ensures (exists after :: Reconciled(m, devs, now, after) && !MacHeld(after, a)) <==>
      a !in SeenKeys(devs) && CanLose(m, devs, |devs|, a)
  {
    assert devs[..|devs|] == devs;
    if a !in SeenKeys(devs) && CanLose(m, devs, |devs|, a) {
      var picks := LosingPicks(m, devs, now, |devs|, a);
      var after := LossIsFinal(m, devs, now, picks, a);
    }
    if after :| Reconciled(m, devs, now, after) && !MacHeld(after, a) {
      LossWasPossible(m, devs, now, after, a);
    }
  }

  lemma LossIsFinal(m: Store, devs: seq<Device>, now: Time, picks: seq<Option<string>>, a: string) returns (after: Store)
    requires GoodPicks(m, devs, now, picks) && !MacHeld(Swept(m, devs, now, picks), a)
    ensures Reconciled(m, devs, now, after) && !MacHeld(after, a)
  {
    var st := Swept(m, devs, now, picks);
    var marked := MissingMarked(st, SeenKeys(devs));
    assert forall h :: HoldsMac(marked, h, a) ==> HoldsMac(st, h, a);
    after := CleanupExists(marked);
    CleanupAddsNoMac(marked, after, a);
    assert ReconciledVia(m, devs, now, picks, after);
  }

  lemma LossWasPossible(m: Store, devs: seq<Device>, now: Time, after: Store, a: string)
    requires Tidy(m) && GoodSweep(devs) && MacHeld(m, a) && Reconciled(m, devs, now, after) && !MacHeld(after, a)
    ensures a !in SeenKeys(devs) && CanLose(m, devs, |devs|, a)
  {
    var picks :| ReconciledVia(m, devs, now, picks, after);
    var st := Swept(m, devs, now, picks);
    SweptStaysTidy(m, devs, now, picks);
    SweepKeepsMacs(st, SeenKeys(devs), after, a);
    var k :| HoldsMac(m, k, a);
    SweptMacsArrive(m, devs, now, picks);
    SeenMacsAreHeld(devs, st, a);
    assert devs[..|devs|] == devs && picks[..|devs|] == picks;
    LostWasTaken(m, devs, now, picks, |devs|, a);
  }

  lemma SweepKeepsMacs(st: Store, seen: set<string>, after: Store, a: string)
    requires Tidy(st) && CleanedUp(MissingMarked(st, seen), after)
    ensures MacHeld(st, a) ==> MacHeld(after, a)
  {
    if MacHeld(st, a) {
      MarkingStaysTidy(st, seen);
      var h :| HoldsMac(st, h, a);
      assert HoldsMac(MissingMarked(st, seen), h, a);
      CleanupKeepsMacs(MissingMarked(st, seen), after, a);
    }
  }

  /** The hypothesis of the retention theorems says just this: no MAC can lose its record. */
  lemma NoTakeoverIfNothingCanBeLost(m: Store, devs: seq<Device>)
    ensures NoTakeover(m, devs) <==> forall a :: !CanLose(m, devs, |devs|, a)
  {
    if a :| CanLose(m, devs, |devs|, a) {
      var i, k := TakingEntry(m, devs, |devs|, a);
      ChainHasAStart(m, devs, i, k);
    }
    if !NoTakeover(m, devs) {
      var i: nat, k :| CanTakeOver(m, devs, i, k);
      assert CanTakeInTurn(m, devs, i, k) && HoldsMac(m, k, Norm(m[k].mac.value));
      assert CanLose(m, devs, |devs|, Norm(m[k].mac.value));
    }
  }

  lemma {:induction false} ChainHasAStart(m: Store, devs: seq<Device>, i: nat, k: string)
    requires CanTakeInTurn(m, devs, i, k)
    ensures !NoTakeover(m, devs)
    decreases i
  {
    var key := Norm(devs[i].mac.value);
    if MacHeld(m, key) {
      var j, h := TakingEntry(m, devs, i, key);
      ChainHasAStart(m, devs, j, h);
    } else {
      assert CanTakeOver(m, devs, i, k);
    }
  }

  /** What is taken over at step `i` could be taken over there in turn. */
  lemma TakenFits(m: Store, devs: seq<Device>, now: Time, picks: seq<Option<string>>, i: nat)
    requires Tidy(m) && GoodSweep(devs) && GoodPicks(m, devs, now, picks) && TakesOver(m, devs, now, picks, i)
    ensures CanTakeInTurn(m, devs, i, picks[i].value)
  {
    var before, h := devs[..i], picks[i].value;
    var st := Swept(m, before, now, picks[..i]);
    var a, key := Norm(st[h].mac.value), MacAt(devs, i);
    SplitAt(devs, i);
    GoodPicksPrefix(m, devs, now, picks, i);
    SweptStaysTidy(m, before, now, picks[..i]);
    PickedHolder(st, devs[i], picks[i], h, a);
    PickedFits(m, devs, now, picks, i, h, a);
    if MacHeld(m, key) {
      LostWasTaken(m, devs, now, picks, i, key);
    }
  }

  /** The condition is exact: a sweep may take a record over if and only if some entry can. */
  lemma TakeoverIsExact(m: Store, devs: seq<Device>, now: Time)
    requires Tidy(m) && GoodSweep(devs)
    ensures (exists picks, i: nat :: GoodPicks(m, devs, now, picks) && TakesOver(m, devs, now, picks, i))
      <==> !NoTakeover(m, devs)
  {
    if !NoTakeover(m, devs) {
      var i: nat, k :| CanTakeOver(m, devs, i, k);
      var picks := TakeoverHappens(m, devs, now, i, k);
    }
    if picks: seq<Option<string>>, i: nat :| GoodPicks(m, devs, now, picks) && TakesOver(m, devs, now, picks, i) {
      TakenFits(m, devs, now, picks, i);
      ChainHasAStart(m, devs, i, picks[i].value);
    }
  }

  // ---- What cannot be lost is retained

  lemma {:induction false} CanLoseInPrefix(m: Store, devs: seq<Device>, n: nat, k: nat, a: string)
    requires n <= k <= |devs| && CanLose(m, devs[..k], n, a)
    ensures CanLose(m, devs, n, a)
    decreases n
  {
    var i, h := TakingEntry(m, devs[..k], n, a);
    assert devs[..k][..i] == devs[..i];
    if MacHeld(m, MacAt(devs, i)) {
      CanLoseInPrefix(m, devs, i, k, MacAt(devs, i));
    }
    assert Fits(m, devs, i, h);
  }

  /** Through the first loop, a MAC that cannot be lost stays held by a record that retains what was known. */
  lemma {:induction false} SweptRetains(
    m: Store, devs: seq<Device>, now: Time, picks: seq<Option<string>>, k: string, a: string)
    requires Tidy(m) && AllTimely(m, now) && GoodSweep(devs) && GoodPicks(m, devs, now, picks)
    requires HoldsMac(m, k, a) && !CanLose(m, devs, |devs|, a)
    ensures KeptAs(m[k], Swept(m, devs, now, picks), a)
  {
    if devs == [] {
      assert Retains(m[k], m[k]);
    } else {
      var n := |devs| - 1;
      var st := Swept(m, devs[..n], now, picks[..n]);
      GoodSweepPrefix(devs);
      ShorterCannotLose(m, devs, a);
      SweptRetains(m, devs[..n], now, picks[..n], k, a);
      SweptStaysTidy(m, devs[..n], now, picks[..n]);
      SweptIsTimely(m, devs[..n], now, picks[..n]);
      var j :| HoldsMac(st, j, a) && Retains(m[k], st[j]);
      HolderIsSafe(m, devs, now, picks, j, a);
      StepKeeps(st, devs[n], now, picks[n], j, a);
      KeptFurther(m[k], st[j], Swept(m, devs, now, picks), a);
    }
  }

  lemma ShorterCannotLose(m: Store, devs: seq<Device>, a: string)
    requires devs != [] && !CanLose(m, devs, |devs|, a)
    ensures !CanLose(m, devs[..|devs| - 1], |devs| - 1, a)
  {
    var n := |devs| - 1;
    if CanLose(m, devs[..n], n, a) {
      CanLoseInPrefix(m, devs, n, n, a);
      var i, k := TakingEntry(m, devs, n, a);
    }
  }

  lemma HolderIsSafe(m: Store, devs: seq<Device>, now: Time, picks: seq<Option<string>>, j: string, a: string)
    requires Tidy(m) && devs != [] && GoodSweep(devs) && GoodPicks(m, devs, now, picks) && !CanLose(m, devs, |devs|, a)
    requires HoldsMac(Swept(m, devs[..|devs| - 1], now, picks[..|devs| - 1]), j, a)
    ensures var d, pick := devs[|devs| - 1], picks[|devs| - 1];
      pick == Some(j) ==> d.mac.None? || Norm(d.mac.value) == a
  {
    var n := |devs| - 1;
    if picks[n] == Some(j) && devs[n].mac.Some? && Norm(devs[n].mac.value) != a {
      assert TakesOver(m, devs, now, picks, n);
      TakenFits(m, devs, now, picks, n);
      GoodSweepPrefix(devs);
      SweptStaysTidy(m, devs[..n], now, picks[..n]);
      PickedHolder(Swept(m, devs[..n], now, picks[..n]), devs[n], picks[n], j, a);
      PickedFits(m, devs, now, picks, n, j, a);
    }
  }

  /** One sweep: a MAC that cannot be lost stays known, under its own key, and its record retains what was known. */
  lemma SweepRetains(before: Store, devs: seq<Device>, now: Time, after: Store, k: string, a: string)
    requires Tidy(before) && AllTimely(before, now) && GoodSweep(devs) && Reconciled(before, devs, now, after)
    requires HoldsMac(before, k, a) && !CanLose(before, devs, |devs|, a)
    ensures HoldsMac(after, a, a) && Retains(before[k], after[a])
  {
    var picks :| ReconciledVia(before, devs, now, picks, after);
    var st := Swept(before, devs, now, picks);
    SweptRetains(before, devs, now, picks, k, a);
    SweptStaysTidy(before, devs, now, picks);
    SweptIsTimely(before, devs, now, picks);
    var j :| HoldsMac(st, j, a) && Retains(before[k], st[j]);
    FinishKeeps(st, SeenKeys(devs), now, after, j, a);
    RetainsIsTransitive(before[k], st[j], after[a]);
  }

  // ---- A concrete chain

  function ShiftStore(a: string, b: string, x: string, y: string): Store {
    map[a := PlainRecord(a, x), b := PlainRecord(b, y)]
  }

  function ShiftSweep(b: string, c: string, x: string, y: string): seq<Device> {
    [PlainDevice(c, y), PlainDevice(b, x)]
  }

  predicate ThreeMacs(a: string, b: string, c: string) {
    PlainText(a) && PlainText(b) && PlainText(c) && a != "" && b != "" && c != "" && a != b && b != c && a != c
  }

  lemma ShiftIsGood(a: string, b: string, c: string, x: string, y: string)
    requires ThreeMacs(a, b, c) && x != y
    ensures Canonical(ShiftStore(a, b, x, y)) && Tidy(ShiftStore(a, b, x, y)) && GoodSweep(ShiftSweep(b, c, x, y))
    ensures forall k, h :: HoldsMac(ShiftStore(a, b, x, y), k, h) <==> (k == a || k == b) && h == k
    ensures TargetKey(ShiftSweep(b, c, x, y)[0]) == MacAt(ShiftSweep(b, c, x, y), 0) == c
    ensures TargetKey(ShiftSweep(b, c, x, y)[1]) == MacAt(ShiftSweep(b, c, x, y), 1) == b
  {
    PlainMac(a);
    PlainMac(b);
    PlainMac(c);
    assert Canonical(ShiftStore(a, b, x, y));
    CanonicalIsTidy(ShiftStore(a, b, x, y));
  }

  lemma ShiftFits(a: string, b: string, c: string, x: string, y: string)
    requires ThreeMacs(a, b, c) && x != y && x != "" && y != ""
    ensures Fits(ShiftStore(a, b, x, y), ShiftSweep(b, c, x, y), 0, b)
    ensures Fits(ShiftStore(a, b, x, y), ShiftSweep(b, c, x, y), 1, a)
    ensures a !in SeenKeys(ShiftSweep(b, c, x, y))
  {
    var devs := ShiftSweep(b, c, x, y);
    ShiftIsGood(a, b, c, x, y);
    PlainMac(a);
    PlainMac(b);
    assert devs[..0] == [] && devs[..1] == [devs[0]] && SeenKeys(devs[..1]) == {c};
  }

  lemma ShiftIsAChain(a: string, b: string, c: string, x: string, y: string)
    requires ThreeMacs(a, b, c) && x != y && x != "" && y != ""
    ensures CanLose(ShiftStore(a, b, x, y), ShiftSweep(b, c, x, y), 2, a)
    ensures forall i: nat :: !CanTakeOver(ShiftStore(a, b, x, y), ShiftSweep(b, c, x, y), i, a)
  {
    var m, devs := ShiftStore(a, b, x, y), ShiftSweep(b, c, x, y);
    ShiftIsGood(a, b, c, x, y);
    ShiftFits(a, b, c, x, y);
    assert HoldsMac(m, a, a) && HoldsMac(m, b, b) && !MacHeld(m, c);
    assert CanLose(m, devs, 1, b);
    forall i: nat ensures !CanTakeOver(m, devs, i, a) {
      assert i == 1 ==> MacHeld(m, b);
    }
  }

  /**
   A newcomer shows up on the address of a known device, which has moved on to that of a third: the third is
   forgotten, although no unknown device ever was on its address.
   */
  lemma ShiftForgets(a: string, b: string, c: string, x: string, y: string) returns (after: Store)
    requires ThreeMacs(a, b, c) && x != y && x != "" && y != ""
    ensures Reconciled(ShiftStore(a, b, x, y), ShiftSweep(b, c, x, y), 3, after)
    ensures MacHeld(ShiftStore(a, b, x, y), a) && !MacHeld(after, a)
    ensures forall i: nat :: !CanTakeOver(ShiftStore(a, b, x, y), ShiftSweep(b, c, x, y), i, a)
  {
    ShiftIsGood(a, b, c, x, y);
    ShiftFits(a, b, c, x, y);
    ShiftIsAChain(a, b, c, x, y);
    assert HoldsMac(ShiftStore(a, b, x, y), a, a);
    ForgetsExactly(ShiftStore(a, b, x, y), ShiftSweep(b, c, x, y), 3, a);
    after :| Reconciled(ShiftStore(a, b, x, y), ShiftSweep(b, c, x, y), 3, after) && !MacHeld(after, a);
  }
}
