/**
 Which records the entries of a sweep may be matched with, told before the sweep: where the match is unique for
 every order of the map, and which entries may be matched with none.
 */
module HistoryMatching {
  import opened Options
  import opened Text
  import opened HistoryRecords
  import opened HistorySweep
  import opened HistoryRetention
  import opened HistoryTakeover
  import opened HistoryChains

  /** Record `k` is on the address of entry `i`, and waits there: neither it nor its MAC is found before. */
  ghost predicate Waiting(m: Store, devs: seq<Device>, i: nat, k: string) {
    && i < |devs| && devs[i].ip != "" && Has(m, k) && m[k].ip == devs[i].ip && k !in SeenKeys(devs[..i])
    && (ValidMac(m[k].mac) ==> Norm(m[k].mac.value) !in SeenKeys(devs[..i]))
  }

  /** A record without a MAC sits under the id of entry `i`, and no earlier entry with another key is on its address. */
  ghost predicate KeyStays(m: Store, devs: seq<Device>, i: nat) {
    i < |devs| && Has(m, TargetKey(devs[i])) && m[TargetKey(devs[i])].mac.None?
    && forall l: nat :: l < i && devs[l].ip == m[TargetKey(devs[i])].ip != "" ==> TargetKey(devs[l]) == TargetKey(devs[i])
  }

  /** Entry `i` is sure to be found by its key or MAC: the MAC was found before, or is known and cannot be lost by then. */
  ghost predicate Found(m: Store, devs: seq<Device>, i: nat) {
    i < |devs| &&
    if devs[i].mac.Some? then
      MacAt(devs, i) in SeenKeys(devs[..i]) || (MacHeld(m, MacAt(devs, i)) && !CanLose(m, devs, i, MacAt(devs, i)))
    else KeyStays(m, devs, i)
  }

  /** Where two records wait on the address of an entry, the entry is found by key or MAC. */
  ghost predicate OneMatch(m: Store, devs: seq<Device>) {
    forall i: nat, j, k :: Waiting(m, devs, i, j) && Waiting(m, devs, i, k) && j != k ==> Found(m, devs, i)
  }

  // ---- What waits and what is found

  lemma WaitingWaits(m: Store, devs: seq<Device>, now: Time, first: seq<Option<string>>, i: nat, k: string)
    requires GoodSweep(devs) && Waiting(m, devs, i, k) && GoodPicks(m, devs[..i], now, first)
    ensures var st := Swept(m, devs[..i], now, first); Has(st, k) && st[k] == m[k]
  {
    SplitAt(devs, i);
    RecordWaits(m, devs[..i], now, first, k, devs[i].ip);
  }

  /** What sits on an entry's address when its turn comes was waiting there. */
  lemma PresentWaited(m: Store, devs: seq<Device>, now: Time, first: seq<Option<string>>, i: nat, h: string)
    requires Tidy(m) && GoodSweep(devs) && i < |devs| && GoodPicks(m, devs[..i], now, first)
    requires var st := Swept(m, devs[..i], now, first); Has(st, h) && st[h].ip == devs[i].ip != ""
    ensures Waiting(m, devs, i, h) && Swept(m, devs[..i], now, first)[h] == m[h]
  {
    var before := devs[..i];
    var st := Swept(m, before, now, first);
    SplitAt(devs, i);
    SweptIsAccounted(m, before, now, first);
    TakenIsUntouched(m, before, st, devs[i], h);
    UntouchedIsUnseen(m, before, now, first, h);
  }

  /** The MAC of a record that is still untouched was not found either. */
  lemma UntouchedIsUnseen(m: Store, devs: seq<Device>, now: Time, picks: seq<Option<string>>, h: string)
    requires Tidy(m) && GoodSweep(devs) && GoodPicks(m, devs, now, picks)
    requires var st := Swept(m, devs, now, picks); Has(st, h) && h !in SeenKeys(devs)
    ensures var st := Swept(m, devs, now, picks);
      ValidMac(st[h].mac) ==> Norm(st[h].mac.value) !in SeenKeys(devs)
  {
    var st := Swept(m, devs, now, picks);
    SweptStaysTidy(m, devs, now, picks);
    SweptMacsArrive(m, devs, now, picks);
    if ValidMac(st[h].mac) {
      var a := Norm(st[h].mac.value);
      assert HoldsMac(st, h, a) && ToldApart(st[h].mac, st[h].deviceId);
      SeenMacsAreHeld(devs, st, a);
    }
  }

  lemma {:induction false} KeyIsThere(m: Store, devs: seq<Device>, now: Time, picks: seq<Option<string>>, y: string)
    requires GoodSweep(devs) && GoodPicks(m, devs, now, picks) && Has(m, y) && NetId(y) && m[y].mac.None?
    requires forall l: nat :: l < |devs| && devs[l].ip == m[y].ip != "" ==> TargetKey(devs[l]) == y
    ensures var st := Swept(m, devs, now, picks); Has(st, y) && st[y].mac.None?
    decreases |devs|
  {
    if devs != [] {
      var n := |devs| - 1;
      var st, e := Swept(m, devs[..n], now, picks[..n]), devs[n];
      GoodSweepPrefix(devs);
      KeyIsThere(m, devs[..n], now, picks[..n], y);
      SweptIsAccounted(m, devs[..n], now, picks[..n]);
      LastForIsLast(devs[..n], y);
      KeyIsPassed(st, e, now, picks[n], y);
    }
  }

  lemma KeyIsPassed(st: Store, e: Device, now: Time, pick: Option<string>, y: string)
    requires GoodDevice(e) && Matches(st, e, pick) && Has(st, y) && NetId(y) && st[y].mac.None?
    requires st[y].ip == e.ip != "" ==> TargetKey(e) == y
    ensures var st' := Applied(st, e, now, pick); Has(st', y) && st'[y].mac.None?
  {
    if TargetKey(e) == y {
      assert e.mac.None? && pick == Some(y);
    } else {
      assert pick != Some(y);
    }
  }

  /** An entry that is sure to be found is not matched by its address. */
  lemma FoundIsFound(m: Store, devs: seq<Device>, now: Time, picks: seq<Option<string>>, i: nat)
    requires Tidy(m) && GoodSweep(devs) && GoodPicks(m, devs, now, picks) && Found(m, devs, i)
    ensures var st := Swept(m, devs[..i], now, picks[..i]); TargetKey(devs[i]) in st || MacKnown(st, devs[i])
  {
    var before, d := devs[..i], devs[i];
    var st := Swept(m, before, now, picks[..i]);
    SplitAt(devs, i);
    GoodPicksPrefix(m, devs, now, picks, i);
    if d.mac.None? {
      KeyIsThere(m, before, now, picks[..i], TargetKey(d));
    } else if MacAt(devs, i) in SeenKeys(before) {
      var e :| e in before && TargetKey(e) == MacAt(devs, i);
      assert GoodDevice(e) && e.mac.Some?;
      SweptMacsArrive(m, before, now, picks[..i]);
    } else {
      if !MacHeld(st, MacAt(devs, i)) {
        LostWasTaken(m, devs, now, picks, i, MacAt(devs, i));
      }
      var h :| HoldsMac(st, h, MacAt(devs, i));
      assert SameMac(st[h], d);
    }
  }

  // ---- Unique matches

  lemma OnePick(m: Store, devs: seq<Device>, now: Time, picks: seq<Option<string>>, i: nat, q: Option<string>)
    requires Tidy(m) && GoodSweep(devs) && OneMatch(m, devs) && GoodPicks(m, devs, now, picks) && i < |devs|
    requires Matches(Swept(m, devs[..i], now, picks[..i]), devs[i], q)
    ensures picks[i] == q
  {
    var before, d := devs[..i], devs[i];
    var st := Swept(m, before, now, picks[..i]);
    SplitAt(devs, i);
    GoodPicksPrefix(m, devs, now, picks, i);
    SweptStaysTidy(m, before, now, picks[..i]);
    if TargetKey(d) !in st && MacKnown(st, d) {
      assert SharedMac(st[picks[i].value], st[q.value]);
    } else if TargetKey(d) !in st && IpKnown(st, d) {
      PresentWaited(m, devs, now, picks[..i], i, picks[i].value);
      PresentWaited(m, devs, now, picks[..i], i, q.value);
      if picks[i] != q {
        FoundIsFound(m, devs, now, picks, i);
      }
    }
  }

  lemma NextPickAgrees(
    m: Store, devs: seq<Device>, now: Time, p: seq<Option<string>>, q: seq<Option<string>>, i: nat)
    requires Tidy(m) && GoodSweep(devs) && OneMatch(m, devs) && i < |devs|
    requires GoodPicks(m, devs, now, p) && GoodPicks(m, devs, now, q) && p[..i] == q[..i]
    ensures p[i] == q[i]
  {
    GoodPicksPrefix(m, devs, now, q, i);
    OnePick(m, devs, now, p, i, q[i]);
  }

  /** The first difference of two choices of matches. */
  lemma {:induction false} FirstDifference(p: seq<Option<string>>, q: seq<Option<string>>) returns (i: nat)
    requires |p| == |q| && p != q
    ensures i < |p| && p[..i] == q[..i] && p[i] != q[i]
  {
    var n := |p| - 1;
    if p[..n] == q[..n] {
      i := n;
      assert p == p[..n] + [p[n]] && q == q[..n] + [q[n]];
    } else {
      i := FirstDifference(p[..n], q[..n]);
      assert p[..n][..i] == p[..i] && q[..n][..i] == q[..i];
    }
  }

  lemma PicksAgree(m: Store, devs: seq<Device>, now: Time, p: seq<Option<string>>, q: seq<Option<string>>)
    requires Tidy(m) && GoodSweep(devs) && OneMatch(m, devs)
    requires GoodPicks(m, devs, now, p) && GoodPicks(m, devs, now, q)
    ensures p == q
  {
    if p != q {
      var i := FirstDifference(p, q);
      NextPickAgrees(m, devs, now, p, q, i);
    }
  }

  /** Picks for the entries before `i` after which entry `i` is found neither by key nor by MAC. */
  lemma UnfoundPicks(m: Store, devs: seq<Device>, now: Time, i: nat) returns (first: seq<Option<string>>)
    requires Tidy(m) && GoodSweep(devs) && i < |devs| && devs[i].mac.Some? && !Found(m, devs, i)
    ensures GoodPicks(m, devs[..i], now, first) && !MacHeld(Swept(m, devs[..i], now, first), MacAt(devs, i))
  {
    SplitAt(devs, i);
    if MacHeld(m, MacAt(devs, i)) {
      first := LosingPicks(m, devs, now, i, MacAt(devs, i));
    } else {
      first := UnknowingPicks(m, devs[..i], now, MacAt(devs, i));
    }
  }

  /** Where two records wait for an entry that is not found, picks exist for either; they agree before it. */
  lemma TwoWays(m: Store, devs: seq<Device>, now: Time, i: nat, j: string, k: string)
    returns (p: seq<Option<string>>, q: seq<Option<string>>)
    requires Tidy(m) && GoodSweep(devs) && Waiting(m, devs, i, j) && Waiting(m, devs, i, k)
    requires devs[i].mac.Some? && !Found(m, devs, i)
    ensures GoodPicks(m, devs, now, p) && GoodPicks(m, devs, now, q) && p[..i] == q[..i]
    ensures p[i] == Some(j) && q[i] == Some(k)
  {
    var first := UnfoundPicks(m, devs, now, i);
    var st := Swept(m, devs[..i], now, first);
    SplitAt(devs, i);
    SweptStaysTidy(m, devs[..i], now, first);
    WaitingWaits(m, devs, now, first, i, j);
    WaitingWaits(m, devs, now, first, i, k);
    UnknownMatchesByIp(st, devs[i], j);
    UnknownMatchesByIp(st, devs[i], k);
    p := PicksExtendWith(m, devs, now, i, first, Some(j));
    q := PicksExtendWith(m, devs, now, i, first, Some(k));
  }

  /** The program has one choice of matches only. */
  ghost predicate MatchesAreUnique(m: Store, devs: seq<Device>, now: Time) {
    forall p, q :: GoodPicks(m, devs, now, p) && GoodPicks(m, devs, now, q) ==> p == q
  }

  lemma OneMatchIsUnique(m: Store, devs: seq<Device>, now: Time)
    requires Tidy(m) && GoodSweep(devs) && OneMatch(m, devs)
    ensures MatchesAreUnique(m, devs, now)
  {
    forall p, q | GoodPicks(m, devs, now, p) && GoodPicks(m, devs, now, q) ensures p == q {
      PicksAgree(m, devs, now, p, q);
    }
  }

  /**
   For every tidy store and every good sweep of devices with MACs: the matches are the same for every order of the
   map if and only if no two records wait for an entry that may be found neither by key nor by MAC.
   */
  lemma MatchesAreUniqueExactly(m: Store, devs: seq<Device>, now: Time)
    requires Tidy(m) && GoodSweep(devs) && forall i :: 0 <= i < |devs| ==> devs[i].mac.Some?
    ensures MatchesAreUnique(m, devs, now) <==> OneMatch(m, devs)
  {
    if OneMatch(m, devs) {
      OneMatchIsUnique(m, devs, now);
    } else {
      var p, q := TwoChoices(m, devs, now);
    }
  }

  lemma TwoChoices(m: Store, devs: seq<Device>, now: Time) returns (p: seq<Option<string>>, q: seq<Option<string>>)
    requires Tidy(m) && GoodSweep(devs) && !OneMatch(m, devs) && forall i :: 0 <= i < |devs| ==> devs[i].mac.Some?
    ensures GoodPicks(m, devs, now, p) && GoodPicks(m, devs, now, q) && p != q
  {
    var i: nat, j, k :| Waiting(m, devs, i, j) && Waiting(m, devs, i, k) && j != k && !Found(m, devs, i);
    p, q := TwoWays(m, devs, now, i, j, k);
  }

  // ---- Newcomers

  /** Entry `i` may be matched with no record: it may be found neither by key nor by MAC, and none waits on its address. */
  ghost predicate MayBeNew(m: Store, devs: seq<Device>, i: nat) {
    i < |devs| && devs[i].mac.Some? && !Found(m, devs, i) && forall k :: !Waiting(m, devs, i, k)
  }

  /** The condition is exact: some choice of matches leaves the entry without one if and only if it may be new. */
  lemma MayBeNewExactly(m: Store, devs: seq<Device>, now: Time, i: nat)
    requires Tidy(m) && GoodSweep(devs) && i < |devs| && devs[i].mac.Some?
    ensures (exists picks :: GoodPicks(m, devs, now, picks) && picks[i] == None) <==> MayBeNew(m, devs, i)
  {
    if MayBeNew(m, devs, i) {
      var picks := NewPicks(m, devs, now, i);
    }
    if picks :| GoodPicks(m, devs, now, picks) && picks[i] == None {
      NewWasNew(m, devs, now, picks, i);
    }
  }

  lemma NewPicks(m: Store, devs: seq<Device>, now: Time, i: nat) returns (picks: seq<Option<string>>)
    requires Tidy(m) && GoodSweep(devs) && MayBeNew(m, devs, i)
    ensures GoodPicks(m, devs, now, picks) && picks[i] == None
  {
    var first := UnfoundPicks(m, devs, now, i);
    var st, d := Swept(m, devs[..i], now, first), devs[i];
    SplitAt(devs, i);
    SweptStaysTidy(m, devs[..i], now, first);
    assert TargetKey(d) in st ==> HoldsMac(st, TargetKey(d), TargetKey(d));
    assert forall h :: Has(st, h) && SameMac(st[h], d) ==> HoldsMac(st, h, MacAt(devs, i));
    forall h | d.ip != "" && Has(st, h) ensures st[h].ip != d.ip {
      if st[h].ip == d.ip {
        PresentWaited(m, devs, now, first, i, h);
      }
    }
    assert Matches(st, d, None);
    picks := PicksExtendWith(m, devs, now, i, first, None);
  }

  lemma NewWasNew(m: Store, devs: seq<Device>, now: Time, picks: seq<Option<string>>, i: nat)
    requires Tidy(m) && GoodSweep(devs) && GoodPicks(m, devs, now, picks) && i < |devs| && devs[i].mac.Some?
    requires picks[i] == None
    ensures MayBeNew(m, devs, i)
  {
    GoodPicksPrefix(m, devs, now, picks, i);
    if Found(m, devs, i) {
      FoundIsFound(m, devs, now, picks, i);
    }
    forall k ensures !Waiting(m, devs, i, k) {
      if Waiting(m, devs, i, k) {
        WaitingWaits(m, devs, now, picks[..i], i, k);
      }
    }
  }
}
