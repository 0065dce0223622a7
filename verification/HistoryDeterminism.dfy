/** When the order of the history's map matters: which clean-ups and sweeps have one outcome for every order. */
module HistoryDeterminism {
  import opened Options
  import opened Text
  import opened HistoryRecords
  import opened HistoryCleanup
  import opened HistorySweep
  import opened HistoryRetention
  import opened HistoryTakeover
  import opened HistoryChains
  import opened HistoryMacless
  import opened HistoryMatching
  import opened Sequences

  // ---- Clean-up leaves the same

  /** No two records belong under one key. */
  ghost predicate LonelyKeys(m: Store) {
    forall j, k :: Has(m, j) && Has(m, k) && KeyOf(m[j]) == KeyOf(m[k]) ==> j == k
  }

  /** A record without a MAC, one with a MAC and any record on one address. */
  ghost predicate OnOneAddress(m: Store, g: string, h: string, j: string) {
    && Has(m, g) && Has(m, h) && Has(m, j) && Roams(m[g]) && BearsMac(m[h])
    && m[h].ip == m[g].ip && m[j].ip == m[g].ip
  }

  /** Where a record without a MAC and one with a MAC sit on one address, there is no third. */
  ghost predicate Paired(m: Store) {
    forall g, h, j :: OnOneAddress(m, g, h, j) ==> j == g || j == h
  }

  lemma RekeyedIsMoved(m: Store, order: seq<string>, c: string) returns (k: string)
    requires LonelyKeys(m) && IsOrder(order, m) && Has(Rekeyed(m, order), c)
    ensures Has(m, k) && KeyOf(m[k]) == c && Rekeyed(m, order)[c] == m[k]
  {
    k := RekeyedIpOrigin(m, order, c);
    LonelyRecordIsMoved(m, order, k);
  }

  lemma RekeyedAgrees(m: Store, order1: seq<string>, order2: seq<string>)
    requires LonelyKeys(m) && IsOrder(order1, m) && IsOrder(order2, m)
    ensures Rekeyed(m, order1) == Rekeyed(m, order2)
  {
    RekeyingOrdersAgree(m, order1, order2);
    forall c | c in Rekeyed(m, order1) ensures Rekeyed(m, order1)[c] == Rekeyed(m, order2)[c] {
      assert Has(Rekeyed(m, order1), c);
      var k := RekeyedIsMoved(m, order1, c);
      var j := RekeyedIsMoved(m, order2, c);
    }
  }

  lemma RekeyedStaysPaired(m: Store, order: seq<string>)
    requires LonelyKeys(m) && Paired(m) && IsOrder(order, m)
    ensures Paired(Rekeyed(m, order))
  {
    var mid := Rekeyed(m, order);
    forall g, h, j | OnOneAddress(mid, g, h, j) ensures j == g || j == h {
      var g' := RekeyedIsMoved(m, order, g);
      var h' := RekeyedIsMoved(m, order, h);
      var j' := RekeyedIsMoved(m, order, j);
      assert OnOneAddress(m, g', h', j');
    }
  }

  /** Ghost `g` is absorbed by the record under `k`. */
  ghost predicate GoesTo(m: Store, gone: set<string>, hosts: map<string, string>, g: string, k: string) {
    g in gone && Has(m, g) && m[g].ip in hosts && hosts[m[g].ip] == k
  }

  /** What the record under `k` has become: merged with the one ghost it takes in, or as it was. */
  ghost predicate PairAbsorbed(m: Store, gone: set<string>, hosts: map<string, string>, r: Record, k: string)
    requires k in m
  {
    && (forall g :: GoesTo(m, gone, hosts, g, k) ==> g in m && r == Merged(m[k], m[g]))
    && ((forall g :: !GoesTo(m, gone, hosts, g, k)) ==> r == m[k])
  }

  lemma GhostsPair(m: Store, hosts: map<string, string>, g: string, x: string)
    requires Paired(m) && IsHostTable(hosts, m) && g in Ghosts(m, hosts) && x in Ghosts(m, hosts)
    requires hosts[m[g].ip] == hosts[m[x].ip]
    ensures g == x
  {
    HostOf(m, hosts, g);
    HostOf(m, hosts, x);
    var h := hosts[m[g].ip];
    assert Has(m, g) && Has(m, x) && Has(m, h) && m[g].ip in hosts && BearsMac(m[h]);
    assert OnOneAddress(m, g, h, x);
  }

  lemma AbsorbedKeys(m: Store, ghosts: seq<string>, hosts: map<string, string>, k: string)
    requires IsHostTable(hosts, m) && NoDuplicates(ghosts) && Elements(ghosts) <= Ghosts(m, hosts)
    ensures k in AllAbsorbed(m, ghosts, hosts) <==> k in m && k !in Elements(ghosts)
  {
    AbsorbingKeepsHolders(m, ghosts, hosts);
  }

  lemma AbsorbedLast(m: Store, ghosts: seq<string>, hosts: map<string, string>, k: string)
    requires IsHostTable(hosts, m) && NoDuplicates(ghosts) && Elements(ghosts) <= Ghosts(m, hosts) && ghosts != []
    requires k in AllAbsorbed(m, ghosts, hosts)
    ensures var init, x := ghosts[..|ghosts| - 1], ghosts[|ghosts| - 1];
      && Elements(ghosts) == Elements(init) + {x} && x !in Elements(init) && NoDuplicates(init) && x in m
      && k in AllAbsorbed(m, init, hosts) && m[x].ip in hosts
      && AllAbsorbed(m, ghosts, hosts)[k] ==
        (if k == hosts[m[x].ip] then Merged(AllAbsorbed(m, init, hosts)[k], m[x]) else AllAbsorbed(m, init, hosts)[k])
  {
    Prefix(ghosts);
    AbsorbingNext(m, ghosts, hosts);
    AbsorbedKeys(m, ghosts, hosts, k);
    AbsorbedKeys(m, ghosts[..|ghosts| - 1], hosts, k);
  }

  lemma {:induction false} AbsorbedPairwise(
    m: Store, ghosts: seq<string>, hosts: map<string, string>, k: string)
    requires Paired(m) && IsHostTable(hosts, m) && NoDuplicates(ghosts) && Elements(ghosts) <= Ghosts(m, hosts)
    requires k in AllAbsorbed(m, ghosts, hosts)
    ensures k in m && PairAbsorbed(m, Elements(ghosts), hosts, AllAbsorbed(m, ghosts, hosts)[k], k)
    decreases |ghosts|
  {
    AbsorbedKeys(m, ghosts, hosts, k);
    if ghosts != [] {
      var init, x := ghosts[..|ghosts| - 1], ghosts[|ghosts| - 1];
      AbsorbedLast(m, ghosts, hosts, k);
      AbsorbedPairwise(m, init, hosts, k);
      PairStep(m, Elements(init), x, hosts, AllAbsorbed(m, init, hosts)[k], k);
    }
  }

  lemma PairStep(m: Store, gone: set<string>, x: string, hosts: map<string, string>, r: Record, k: string)
    requires Paired(m) && IsHostTable(hosts, m) && gone + {x} <= Ghosts(m, hosts) && x !in gone
    requires k in m && PairAbsorbed(m, gone, hosts, r, k)
    ensures x in m && m[x].ip in hosts &&
      PairAbsorbed(m, gone + {x}, hosts, if k == hosts[m[x].ip] then Merged(r, m[x]) else r, k)
  {
    assert x in Ghosts(m, hosts) && Has(m, x) && x in gone + {x};
    assert forall g :: GoesTo(m, gone + {x}, hosts, g, k) <==> GoesTo(m, gone, hosts, g, k) || (g == x && k == hosts[m[x].ip]);
    if k == hosts[m[x].ip] {
      forall g ensures !GoesTo(m, gone, hosts, g, k) {
        if GoesTo(m, gone, hosts, g, k) {
          assert g in gone + {x};
          GhostsPair(m, hosts, g, x);
        }
      }
      assert GoesTo(m, gone + {x}, hosts, x, k);
    }
  }

  lemma HostsAgree(m: Store, hosts1: map<string, string>, hosts2: map<string, string>)
    requires Paired(m) && IsHostTable(hosts1, m) && IsHostTable(hosts2, m)
    ensures Ghosts(m, hosts1) == Ghosts(m, hosts2)
    ensures forall g :: g in Ghosts(m, hosts1) ==> hosts1[m[g].ip] == hosts2[m[g].ip]
  {
    forall g | g in Ghosts(m, hosts1) ensures g in Ghosts(m, hosts2) && hosts1[m[g].ip] == hosts2[m[g].ip] {
      OneHost(m, hosts1, hosts2, g);
    }
    forall g | g in Ghosts(m, hosts2) ensures g in Ghosts(m, hosts1) {
      OneHost(m, hosts2, hosts1, g);
    }
  }

  lemma OneHost(m: Store, hosts1: map<string, string>, hosts2: map<string, string>, g: string)
    requires Paired(m) && IsHostTable(hosts1, m) && IsHostTable(hosts2, m) && g in Ghosts(m, hosts1)
    ensures g in Ghosts(m, hosts2) && hosts1[m[g].ip] == hosts2[m[g].ip]
  {
    HostOf(m, hosts1, g);
    var h1 := hosts1[m[g].ip];
    assert Has(m, g) && m[g].ip in hosts1 && Has(m, h1) && BearsMac(m[h1]);
    HostOf(m, hosts2, g);
    var h2 := hosts2[m[g].ip];
    assert Has(m, h2) && OnOneAddress(m, g, h1, h2);
  }

  lemma AbsorbedAgrees(
    m: Store, ghosts1: seq<string>, hosts1: map<string, string>, ghosts2: seq<string>, hosts2: map<string, string>)
    requires Paired(m) && IsHostTable(hosts1, m) && IsHostTable(hosts2, m)
    requires IsGhostList(ghosts1, m, hosts1) && IsGhostList(ghosts2, m, hosts2)
    ensures AllAbsorbed(m, ghosts1, hosts1) == AllAbsorbed(m, ghosts2, hosts2)
  {
    HostsAgree(m, hosts1, hosts2);
    forall k ensures k in AllAbsorbed(m, ghosts1, hosts1) <==> k in AllAbsorbed(m, ghosts2, hosts2) {
      AbsorbedKeys(m, ghosts1, hosts1, k);
      AbsorbedKeys(m, ghosts2, hosts2, k);
    }
    forall k | k in AllAbsorbed(m, ghosts1, hosts1)
      ensures AllAbsorbed(m, ghosts1, hosts1)[k] == AllAbsorbed(m, ghosts2, hosts2)[k]
    {
      RecordAgrees(m, ghosts1, hosts1, ghosts2, hosts2, k);
    }
  }

  lemma RecordAgrees(
    m: Store, ghosts1: seq<string>, hosts1: map<string, string>, ghosts2: seq<string>, hosts2: map<string, string>,
    k: string)
    requires Paired(m) && IsHostTable(hosts1, m) && IsHostTable(hosts2, m)
    requires IsGhostList(ghosts1, m, hosts1) && IsGhostList(ghosts2, m, hosts2)
    requires k in AllAbsorbed(m, ghosts1, hosts1) && k in AllAbsorbed(m, ghosts2, hosts2)
    ensures AllAbsorbed(m, ghosts1, hosts1)[k] == AllAbsorbed(m, ghosts2, hosts2)[k]
  {
    HostsAgree(m, hosts1, hosts2);
    AbsorbedPairwise(m, ghosts1, hosts1, k);
    AbsorbedPairwise(m, ghosts2, hosts2, k);
    SamePair(m, Ghosts(m, hosts1), hosts1, hosts2,
      AllAbsorbed(m, ghosts1, hosts1)[k], AllAbsorbed(m, ghosts2, hosts2)[k], k);
  }

  lemma SamePair(
    m: Store, gone: set<string>, hosts1: map<string, string>, hosts2: map<string, string>, r: Record, t: Record, k: string)
    requires k in m && gone <= Ghosts(m, hosts1) && gone <= Ghosts(m, hosts2)
    requires forall g :: g in gone ==> hosts1[m[g].ip] == hosts2[m[g].ip]
    requires PairAbsorbed(m, gone, hosts1, r, k) && PairAbsorbed(m, gone, hosts2, t, k)
    ensures r == t
  {
    assert forall g :: GoesTo(m, gone, hosts1, g, k) <==> GoesTo(m, gone, hosts2, g, k);
    if g :| GoesTo(m, gone, hosts1, g, k) {
      assert r == Merged(m[k], m[g]) && t == Merged(m[k], m[g]);
    }
  }

  lemma CleanupAgrees(before: Store, after1: Store, after2: Store)
    requires LonelyKeys(before) && Paired(before) && CleanedUp(before, after1) && CleanedUp(before, after2)
    ensures after1 == after2
  {
    var order1, hosts1, ghosts1 :| CleanedUpVia(before, order1, hosts1, ghosts1, after1);
    var order2, hosts2, ghosts2 :| CleanedUpVia(before, order2, hosts2, ghosts2, after2);
    RekeyedAgrees(before, order1, order2);
    RekeyedStaysPaired(before, order1);
    AbsorbedAgrees(Rekeyed(before, order1), ghosts1, hosts1, ghosts2, hosts2);
  }

  // ---- All outcomes agree

  lemma SweptHasLonelyKeys(st: Store, seen: set<string>)
    requires Tidy(st) && OwnIds(st)
    ensures LonelyKeys(MissingMarked(st, seen))
  {
    var marked := MissingMarked(st, seen);
    forall j, k | Has(marked, j) && Has(marked, k) && KeyOf(marked[j]) == KeyOf(marked[k]) ensures j == k {
      assert Has(st, j) && Has(st, k) && KeyOf(st[j]) == KeyOf(st[k]);
      assert ToldApart(st[j].mac, st[j].deviceId) && ToldApart(st[k].mac, st[k].deviceId);
      if ValidMac(st[j].mac) {
        assert SharedMac(st[j], st[k]);
      }
    }
  }

  /**
   On the address of an entry with a MAC at most one record without a MAC waits, and on that of an entry without a
   MAC at most one with a MAC: so a ghost and its host are told without choice.
   */
  ghost predicate OneOpposite(m: Store, devs: seq<Device>) {
    forall i: nat, j, k :: Waiting(m, devs, i, j) && Waiting(m, devs, i, k) && j != k ==>
      if devs[i].mac.Some? then m[j].mac.Some? || m[k].mac.Some? else m[j].mac.None? || m[k].mac.None?
  }

  lemma {:induction false} LastIndex(devs: seq<Device>, key: string) returns (i: nat)
    requires key in SeenKeys(devs)
    ensures i < |devs| && TargetKey(devs[i]) == key && !SeenAfter(devs, i, key) && LastFor(devs, key) == Some(devs[i])
  {
    var n := |devs| - 1;
    SeenKeysNext(devs);
    if TargetKey(devs[n]) == key {
      i := n;
    } else {
      i := LastIndex(devs[..n], key);
    }
  }

  /** A record that the sweep did not write, on the address of an entry, was waiting for the entry. */
  lemma UnwrittenWaited(m: Store, devs: seq<Device>, now: Time, picks: seq<Option<string>>, i: nat, h: string)
    requires Tidy(m) && GoodSweep(devs) && GoodPicks(m, devs, now, picks) && i < |devs|
    requires var st := Swept(m, devs, now, picks); Has(st, h) && st[h].ip == devs[i].ip != "" && h !in SeenKeys(devs)
    ensures Waiting(m, devs, i, h) && m[h] == Swept(m, devs, now, picks)[h]
  {
    SweptIsAccounted(m, devs, now, picks);
    LastForIsLast(devs, h);
    UntouchedIsUnseen(m, devs, now, picks, h);
    assert forall d :: d in devs[..i] ==> d in devs;
  }

  /** What an entry without a MAC wrote last, if it was sure to be found by key, has no MAC. */
  lemma FoundWritesNoMac(m: Store, devs: seq<Device>, now: Time, picks: seq<Option<string>>, i: nat)
    requires Tidy(m) && GoodSweep(devs) && GoodPicks(m, devs, now, picks) && LastWithoutMac(devs, i) && KeyStays(m, devs, i)
    requires Has(Swept(m, devs, now, picks), devs[i].deviceId)
    ensures Swept(m, devs, now, picks)[devs[i].deviceId].mac.None?
  {
    WrittenWaits(m, devs, now, picks, i);
    GoodPicksPrefix(m, devs, now, picks, i);
    GoodSweepTake(devs, i);
    assert devs[i] in devs && GoodDevice(devs[i]);
    KeyIsThere(m, devs[..i], now, picks[..i], devs[i].deviceId);
  }

  /** A ghost and a host on one address leave no room for a third record. */
  lemma ThirdOnAddress(
    m: Store, devs: seq<Device>, now: Time, picks: seq<Option<string>>, g: string, h: string, j: string)
    requires GhostFree(m) && Tidy(m) && GoodSweep(devs) && OneMatch(m, devs) && OneOpposite(m, devs)
    requires GoodPicks(m, devs, now, picks) && OnOneAddress(Swept(m, devs, now, picks), g, h, j)
    ensures j == g || j == h
  {
    var st := Swept(m, devs, now, picks);
    SweptIsAccounted(m, devs, now, picks);
    if j != g && j != h {
      var w := WrittenAmong(m, devs, st, g, h, j);
      var i := LastIndex(devs, w);
      forall x | x in {g, h, j} && x != w ensures x !in SeenKeys(devs) {
        SweptIpsAreDistinct(m, devs, st, w, x);
      }
      forall x | x in {g, h, j} && x != w ensures Waiting(m, devs, i, x) && m[x] == st[x] {
        UnwrittenWaited(m, devs, now, picks, i, x);
      }
      ThreeAreTooMany(m, devs, now, picks, i, g, h, j);
    }
  }

  lemma WrittenAmong(m: Store, devs: seq<Device>, st: Store, g: string, h: string, j: string) returns (w: string)
    requires GhostFree(m) && Accounted(m, devs, st) && OnOneAddress(st, g, h, j)
    ensures w in {g, h, j} && w in SeenKeys(devs)
  {
    LastForIsLast(devs, g);
    LastForIsLast(devs, h);
    w := if g in SeenKeys(devs) then g else h;
  }

  lemma ThreeAreTooMany(
    m: Store, devs: seq<Device>, now: Time, picks: seq<Option<string>>, i: nat, g: string, h: string, j: string)
    requires GhostFree(m) && Tidy(m) && GoodSweep(devs) && OneMatch(m, devs) && OneOpposite(m, devs)
    requires GoodPicks(m, devs, now, picks) && i < |devs| && !SeenAfter(devs, i, TargetKey(devs[i]))
    requires var st, w := Swept(m, devs, now, picks), TargetKey(devs[i]);
      && OnOneAddress(st, g, h, j) && w in {g, h, j} && WrittenBy(st[w], devs[i])
      && forall x :: x in {g, h, j} && x != w ==> Waiting(m, devs, i, x) && m[x] == st[x]
    ensures j == g || j == h
  {
    var st, w, d := Swept(m, devs, now, picks), TargetKey(devs[i]), devs[i];
    if j != g && j != h && w == h && d.mac.None? {
      assert Waiting(m, devs, i, g) && Waiting(m, devs, i, j);
      FoundWritesNoMac(m, devs, now, picks, i);
    }
  }

  lemma SweptIsPaired(m: Store, devs: seq<Device>, now: Time, picks: seq<Option<string>>)
    requires GhostFree(m) && Tidy(m) && GoodSweep(devs) && OneMatch(m, devs) && OneOpposite(m, devs)
    requires GoodPicks(m, devs, now, picks)
    ensures Paired(Marked(m, devs, now, picks))
  {
    var st, marked := Swept(m, devs, now, picks), Marked(m, devs, now, picks);
    forall g, h, j | OnOneAddress(marked, g, h, j) ensures j == g || j == h {
      assert OnOneAddress(st, g, h, j);
      ThirdOnAddress(m, devs, now, picks, g, h, j);
    }
  }

  /**
   All outcomes of a sweep agree, whatever the order of the map, if no two records wait for an entry that may be found
   neither by key nor by MAC, ghosts and hosts are told without choice, and no entry without a MAC sits on the
   address of a record without one that has another id.
   */
  lemma OutcomesAgree(m: Store, devs: seq<Device>, now: Time, after1: Store, after2: Store)
    requires NormalForm(m) && Tidy(m) && GoodSweep(devs)
    requires OneMatch(m, devs) && OneOpposite(m, devs) && IdsFollowIps(m, devs)
    requires Reconciled(m, devs, now, after1) && Reconciled(m, devs, now, after2)
    ensures after1 == after2
  {
    var p :| ReconciledVia(m, devs, now, p, after1);
    var q :| ReconciledVia(m, devs, now, q, after2);
    PicksAgree(m, devs, now, p, q);
    SweptStaysTidy(m, devs, now, p);
    SweptKeepsOwnIds(m, devs, now, p);
    SweptHasLonelyKeys(Swept(m, devs, now, p), SeenKeys(devs));
    SweptIsPaired(m, devs, now, p);
    CleanupAgrees(Marked(m, devs, now, p), after1, after2);
  }

  // ---- Exactness among MACs

  /** Two records can be taken over by one entry, in turn. */
  ghost predicate TwoCanBeTaken(m: Store, devs: seq<Device>) {
    exists i: nat, j, k :: j != k && CanTakeInTurn(m, devs, i, j) && CanTakeInTurn(m, devs, i, k)
  }

  lemma TakenAreWaiting(m: Store, devs: seq<Device>, i: nat, k: string)
    requires Tidy(m) && GoodSweep(devs) && KeyedByMac(m)
    ensures CanTakeInTurn(m, devs, i, k) <==> Waiting(m, devs, i, k) && devs[i].mac.Some? && !Found(m, devs, i)
  {
    if Waiting(m, devs, i, k) && devs[i].mac.Some? && !Found(m, devs, i) {
      if Norm(m[k].mac.value) == MacAt(devs, i) {
        assert HoldsMac(m, k, MacAt(devs, i));
        var l, h := TakingEntry(m, devs, i, MacAt(devs, i));
        assert SharedMac(m[h], m[k]);
      }
    }
  }

  lemma OneMatchExactly(m: Store, devs: seq<Device>)
    requires Tidy(m) && GoodSweep(devs) && KeyedByMac(m) && forall i :: 0 <= i < |devs| ==> devs[i].mac.Some?
    ensures OneMatch(m, devs) <==> !TwoCanBeTaken(m, devs)
  {
    forall i: nat, k ensures i < |devs| ==>
      (CanTakeInTurn(m, devs, i, k) <==> Waiting(m, devs, i, k) && !Found(m, devs, i))
    {
      if i < |devs| {
        TakenAreWaiting(m, devs, i, k);
      }
    }
    if !OneMatch(m, devs) {
      var i: nat, j, k :| Waiting(m, devs, i, j) && Waiting(m, devs, i, k) && j != k && !Found(m, devs, i);
      assert CanTakeInTurn(m, devs, i, j) && CanTakeInTurn(m, devs, i, k);
    }
    if TwoCanBeTaken(m, devs) {
      var i: nat, j, k :| j != k && CanTakeInTurn(m, devs, i, j) && CanTakeInTurn(m, devs, i, k);
      assert Waiting(m, devs, i, j) && Waiting(m, devs, i, k);
    }
  }

  /** After `j` entries, `c` is the key of a record with this id. */
  predicate KeepsId(
    m: Store, devs: seq<Device>, now: Time, picks: seq<Option<string>>, j: nat, c: string, id: string)
    requires |picks| == |devs| && j <= |devs|
  {
    var st := Swept(m, devs[..j], now, picks[..j]);
    Has(st, c) && st[c].deviceId == id
  }

  lemma IdStaysNext(
    m: Store, devs: seq<Device>, now: Time, picks: seq<Option<string>>, i: nat, j: nat, id: string)
    requires GoodSweep(devs) && GoodPicks(m, devs, now, picks) && i < j < |devs| && devs[i].mac.Some?
    requires KeepsId(m, devs, now, picks, j, TargetKey(devs[i]), id)
    ensures KeepsId(m, devs, now, picks, j + 1, TargetKey(devs[i]), id)
  {
    KeyIsNotTaken(m, devs, now, picks, i, j);
    SweptNext(m, devs, now, picks, j);
    GoodPicksPrefix(m, devs, now, picks, j);
    IdIsPassed(Swept(m, devs[..j], now, picks[..j]), devs[j], now, picks[j], TargetKey(devs[i]));
  }

  lemma {:induction false} IdStaysOn(
    m: Store, devs: seq<Device>, now: Time, picks: seq<Option<string>>, i: nat, j: nat, c: string, id: string)
    requires |picks| == |devs| && i <= j <= |devs| && KeepsId(m, devs, now, picks, i, c, id)
    requires forall n | i <= n < |devs| && KeepsId(m, devs, now, picks, n, c, id) ::
      KeepsId(m, devs, now, picks, n + 1, c, id)
    ensures KeepsId(m, devs, now, picks, j, c, id)
  {
    if i < j {
      IdStaysOn(m, devs, now, picks, i, j - 1, c, id);
    }
  }

  /** Once entry `i` is filed, the record under its MAC keeps its id. */
  lemma IdStays(m: Store, devs: seq<Device>, now: Time, picks: seq<Option<string>>, i: nat, id: string)
    requires GoodSweep(devs) && GoodPicks(m, devs, now, picks) && i < |devs| && devs[i].mac.Some?
    requires KeepsId(m, devs, now, picks, i + 1, TargetKey(devs[i]), id)
    ensures KeepsId(m, devs, now, picks, |devs|, TargetKey(devs[i]), id)
  {
    forall n | i + 1 <= n < |devs| && KeepsId(m, devs, now, picks, n, TargetKey(devs[i]), id)
      ensures KeepsId(m, devs, now, picks, n + 1, TargetKey(devs[i]), id)
    {
      IdStaysNext(m, devs, now, picks, i, n, id);
    }
    IdStaysOn(m, devs, now, picks, i + 1, |devs|, TargetKey(devs[i]), id);
  }

  /** Entry `j` is matched with the record under the MAC of an earlier one only if it has that MAC. */
  lemma KeyIsNotTaken(m: Store, devs: seq<Device>, now: Time, picks: seq<Option<string>>, i: nat, j: nat)
    requires GoodSweep(devs) && GoodPicks(m, devs, now, picks) && i < j < |devs| && devs[i].mac.Some?
    requires Has(Swept(m, devs[..j], now, picks[..j]), TargetKey(devs[i]))
    ensures picks[j] == Some(TargetKey(devs[i])) ==> TargetKey(devs[j]) == TargetKey(devs[i])
  {
    GoodSweepTake(devs, j);
    GoodPicksPrefix(m, devs, now, picks, j);
    SweptIsAccounted(m, devs[..j], now, picks[..j]);
    assert devs[..j][i] in devs[..j] && devs[j] in devs;
    ArrivedIsNotPicked(m, devs[..j], Swept(m, devs[..j], now, picks[..j]), devs[i], devs[j], picks[j]);
  }

  lemma IdIsPassed(st: Store, e: Device, now: Time, pick: Option<string>, c: string)
    requires Matches(st, e, pick) && Has(st, c) && (pick == Some(c) ==> TargetKey(e) == c)
    ensures var st' := Applied(st, e, now, pick); Has(st', c) && st'[c].deviceId == st[c].deviceId
  {
  }

  /** The outcome of a choice of matches, where all records and entries have MACs. */
  lemma KeyedOutcome(m: Store, devs: seq<Device>, now: Time, picks: seq<Option<string>>)
    requires KeyedByMac(m) && GoodPicks(m, devs, now, picks) && forall d :: d in devs ==> ValidMac(d.mac)
    ensures Reconciled(m, devs, now, Marked(m, devs, now, picks))
  {
    var marked := Marked(m, devs, now, picks);
    SweptStaysKeyedByMac(m, devs, now, picks);
    MarkingKeepsIds(Swept(m, devs, now, picks), SeenKeys(devs));
    var after := CleanupExists(marked);
    CleanupIsIdempotent(marked, after);
    assert ReconciledVia(m, devs, now, picks, marked);
  }

  lemma TakenIdEnds(m: Store, devs: seq<Device>, now: Time, picks: seq<Option<string>>, i: nat, k: string)
    requires GoodSweep(devs) && GoodPicks(m, devs, now, picks) && Waiting(m, devs, i, k) && devs[i].mac.Some?
    requires picks[i] == Some(k)
    ensures var marked, c := Marked(m, devs, now, picks), TargetKey(devs[i]);
      Has(marked, c) && marked[c].deviceId == m[k].deviceId
  {
    GoodPicksPrefix(m, devs, now, picks, i);
    WaitingWaits(m, devs, now, picks[..i], i, k);
    SweptNext(m, devs, now, picks, i);
    IdStays(m, devs, now, picks, i, m[k].deviceId);
    assert devs[..|devs|] == devs && picks[..|devs|] == picks;
  }

  lemma TwoOutcomes(m: Store, devs: seq<Device>, now: Time, i: nat, j: string, k: string)
    returns (after1: Store, after2: Store)
    requires Tidy(m) && KeyedByMac(m) && GoodSweep(devs) && forall d :: d in devs ==> ValidMac(d.mac)
    requires CanTakeInTurn(m, devs, i, j) && CanTakeInTurn(m, devs, i, k) && m[j].deviceId != m[k].deviceId
    ensures Reconciled(m, devs, now, after1) && Reconciled(m, devs, now, after2) && after1 != after2
  {
    TakenAreWaiting(m, devs, i, j);
    TakenAreWaiting(m, devs, i, k);
    var p, q := TwoWays(m, devs, now, i, j, k);
    after1, after2 := Marked(m, devs, now, p), Marked(m, devs, now, q);
    KeyedOutcome(m, devs, now, p);
    KeyedOutcome(m, devs, now, q);
    TakenIdEnds(m, devs, now, p, i, j);
    TakenIdEnds(m, devs, now, q, i, k);
  }

  /**
   For every tidy store keyed by MAC, with distinct device ids, and every good sweep of devices with MACs: all outcomes
   agree if and only if no entry can take over either of two records.
   */
  lemma OutcomesAgreeExactly(m: Store, devs: seq<Device>, now: Time)
    requires Tidy(m) && KeyedByMac(m) && IdsDistinct(m) && GoodSweep(devs) && forall d :: d in devs ==> ValidMac(d.mac)
    ensures !TwoCanBeTaken(m, devs) <==>
      forall after1, after2 :: Reconciled(m, devs, now, after1) && Reconciled(m, devs, now, after2) ==> after1 == after2
  {
    forall i | 0 <= i < |devs| ensures devs[i].mac.Some? {
      assert devs[i] in devs;
    }
    if TwoCanBeTaken(m, devs) {
      var i: nat, j, k :| j != k && CanTakeInTurn(m, devs, i, j) && CanTakeInTurn(m, devs, i, k);
      var after1, after2 := TwoOutcomes(m, devs, now, i, j, k);
    } else {
      OneMatchExactly(m, devs);
      assert OneOpposite(m, devs) && IdsFollowIps(m, devs) && NormalForm(m);
      forall after1, after2 | Reconciled(m, devs, now, after1) && Reconciled(m, devs, now, after2) ensures after1 == after2 {
        OutcomesAgree(m, devs, now, after1, after2);
      }
    }
  }

  // ---- Outcomes that differ

  /** Where every record bears a MAC and is alone on its key, clean-up only moves records. */
  lemma BearersOnlyMove(before: Store, after: Store, k: string)
    requires CleanedUp(before, after) && LonelyKeys(before) && Has(before, k)
    requires forall j :: Has(before, j) ==> before[j].mac.Some?
    ensures Has(after, KeyOf(before[k])) && after[KeyOf(before[k])] == before[k]
  {
    var order, hosts, ghosts :| CleanedUpVia(before, order, hosts, ghosts, after);
    var mid := Rekeyed(before, order);
    LonelyRecordIsMoved(before, order, k);
    forall g | g in mid ensures g !in Ghosts(mid, hosts) {
      assert Has(mid, g);
      var j := RekeyedIsMoved(before, order, g);
    }
    assert Ghosts(mid, hosts) == {};
    NoElements(ghosts);
  }

  lemma NoElements(xs: seq<string>)
    ensures xs == [] <==> Elements(xs) == {}
  {
    if xs != [] {
      assert xs[0] in Elements(xs);
    }
  }

  function TwoOnOneAddress(a: string, b: string, x: string): Store {
    map[a := PlainRecord(a, x), b := PlainRecord(b, x)]
  }

  function WithoutMacAt(x: string): Device {
    PlainDevice("", x).(mac := None)
  }

  lemma TwoIsNormal(a: string, b: string, x: string)
    requires PlainText(a) && PlainText(b) && a != "" && b != "" && a != b
    ensures NormalForm(TwoOnOneAddress(a, b, x)) && Tidy(TwoOnOneAddress(a, b, x)) && GoodSweep([WithoutMacAt(x)])
  {
    TwoAreKeyed(a, b, x);
    CanonicalIsTidy(TwoOnOneAddress(a, b, x));
    assert NetId(WithoutMacAt(x).deviceId);
  }

  lemma TwoAreKeyed(a: string, b: string, x: string)
    requires PlainText(a) && PlainText(b) && a != "" && b != "" && a != b
    ensures var m := TwoOnOneAddress(a, b, x);
      NormalForm(m) && forall k :: Has(m, k) ==> ValidMac(m[k].mac) && ToldApart(m[k].mac, m[k].deviceId)
  {
    PlainMac(a);
    PlainMac(b);
    var m := TwoOnOneAddress(a, b, x);
    assert forall k :: Has(m, k) ==> m[k].mac == Some(k) && NetId(m[k].deviceId);
  }

  lemma OneEntry(m: Store, d: Device, now: Time, pick: Option<string>, after: Store)
    requires Matches(m, d, pick) && CleanedUp(MissingMarked(Applied(m, d, now, pick), {TargetKey(d)}), after)
    ensures Reconciled(m, [d], now, after)
  {
    FiledNext(m, [], now, [], d, pick);
    assert [] + [d] == [d] && [] + [pick] == [pick];
    assert SeenKeys([d]) == {TargetKey(d)};
    assert ReconciledVia(m, [d], now, [pick], after);
  }

  /** Two records, one just filed under an id and active, the other inactive. */
  ghost predicate OneOfTwo(m: Store, id: string, a: string, b: string) {
    && id != b && (forall k :: Has(m, k) <==> k == id || k == b) && Has(m, id) && Has(m, b)
    && m[id].mac == Some(a) && m[id].isActive && m[b].mac == Some(b) && !m[b].isActive
  }

  lemma EitherIsPicked(a: string, b: string, x: string)
    requires PlainText(a) && PlainText(b) && a != "" && b != "" && a != b && x != ""
    ensures var m, d := TwoOnOneAddress(a, b, x), WithoutMacAt(x);
      && Matches(m, d, Some(a))
      && OneOfTwo(MissingMarked(Applied(m, d, 3, Some(a)), {TargetKey(d)}), TargetKey(d), a, b)
  {
    PlainMac(a);
    PlainMac(b);
    var m, d := TwoOnOneAddress(a, b, x), WithoutMacAt(x);
    assert NetId(d.deviceId) && TargetKey(d) == d.deviceId;
    assert Has(m, a) && m[a].ip == x;
    var marked := MissingMarked(Applied(m, d, 3, Some(a)), {TargetKey(d)});
    assert forall k :: Has(marked, k) <==> k == d.deviceId || k == b;
  }

  lemma OneOfTwoIsMoved(before: Store, after: Store, id: string, a: string, b: string)
    requires CleanedUp(before, after) && OneOfTwo(before, id, a, b) && a != b
    requires ValidMac(Some(a)) && ValidMac(Some(b)) && Norm(a) == a && Norm(b) == b
    ensures Has(after, a) && Has(after, b) && after[a].isActive && !after[b].isActive
  {
    assert Has(before, id) && Has(before, b);
    BearersOnlyMove(before, after, id);
    BearersOnlyMove(before, after, b);
  }

  /** The entry may be matched with either record, which then is the active one. */
  lemma PickDecides(a: string, b: string, x: string) returns (after: Store)
    requires PlainText(a) && PlainText(b) && a != "" && b != "" && a != b && x != ""
    ensures Reconciled(TwoOnOneAddress(a, b, x), [WithoutMacAt(x)], 3, after)
    ensures Has(after, a) && Has(after, b) && after[a].isActive && !after[b].isActive
  {
    var m, d := TwoOnOneAddress(a, b, x), WithoutMacAt(x);
    EitherIsPicked(a, b, x);
    var marked := MissingMarked(Applied(m, d, 3, Some(a)), {TargetKey(d)});
    after := CleanupExists(marked);
    OneEntry(m, d, 3, Some(a), after);
    PlainMac(a);
    PlainMac(b);
    OneOfTwoIsMoved(marked, after, TargetKey(d), a, b);
  }

  lemma TwoCommutes(a: string, b: string, x: string)
    requires a != b
    ensures TwoOnOneAddress(a, b, x) == TwoOnOneAddress(b, a, x)
  {
  }

  /**
   Two records with MACs on one address, in a normal and tidy store, and an entry without a MAC there:
   one outcome of the sweep has the one device active and the other not, another outcome the other way round.
   */
  lemma OutcomesMayDiffer(a: string, b: string, x: string) returns (one: Store, other: Store)
    requires PlainText(a) && PlainText(b) && a != "" && b != "" && a != b && x != ""
    ensures NormalForm(TwoOnOneAddress(a, b, x)) && Tidy(TwoOnOneAddress(a, b, x)) && GoodSweep([WithoutMacAt(x)])
    ensures Reconciled(TwoOnOneAddress(a, b, x), [WithoutMacAt(x)], 3, one)
    ensures Reconciled(TwoOnOneAddress(a, b, x), [WithoutMacAt(x)], 3, other)
    ensures Has(one, a) && Has(one, b) && one[a].isActive && !one[b].isActive
    ensures Has(other, a) && Has(other, b) && !other[a].isActive && other[b].isActive
  {
    one := PickDecides(a, b, x);
    other := PickDecides(b, a, x);
    TwoCommutes(a, b, x);
    TwoIsNormal(a, b, x);
  }

  /** Two hosts on the address of an active ghost, which the one or the other absorbs. */
  function TwoHosts(a: string, b: string, x: string): Store {
    map[a := PlainRecord(a, x).(isActive := false), b := PlainRecord(b, x).(isActive := false),
        "net-10-0-0-5" := PlainRecord(a, x).(mac := None)]
  }

  /** Either may be the host. */
  lemma HostDecides(a: string, b: string, x: string, h: string) returns (after: Store)
    requires PlainText(a) && PlainText(b) && a != "" && b != "" && a != b && x != "" && (h == a || h == b)
    ensures CleanedUp(TwoHosts(a, b, x), after)
    ensures Has(after, a) && Has(after, b) && after[a].isActive == (h == a) && after[b].isActive == (h == b)
  {
    var m, g := TwoHosts(a, b, x), "net-10-0-0-5";
    HostsAreCanonical(a, b, x);
    OneGhost(a, b, x, h);
    after := Absorbed(m, g, h);
    var order := OrderExists(m.Keys);
    RekeyingCanonical(m, order);
    DrainedAll(m, order);
    assert AllAbsorbed(m, [g], map[x := h]) == after by {
      assert [g][..0] == [];
    }
    assert CleanedUpVia(m, order, map[x := h], [g], after);
  }

  lemma OneGhost(a: string, b: string, x: string, h: string)
    requires PlainText(a) && PlainText(b) && a != "" && b != "" && a != b && x != "" && (h == a || h == b)
    ensures var m, g := TwoHosts(a, b, x), "net-10-0-0-5";
      && IsHostTable(map[x := h], m) && IsGhostList([g], m, map[x := h]) && Ghosts(m, map[x := h]) == {g}
      && h in m && g in m
      && var after := Absorbed(m, g, h);
        Has(after, a) && Has(after, b) && after[a].isActive == (h == a) && after[b].isActive == (h == b)
  {
    HostsAreCanonical(a, b, x);
  }

  lemma HostsAreCanonical(a: string, b: string, x: string)
    requires PlainText(a) && PlainText(b) && a != "" && b != "" && a != b
    ensures Canonical(TwoHosts(a, b, x)) && TwoHosts(a, b, x).Keys == {a, b, "net-10-0-0-5"} && NetId("net-10-0-0-5")
    ensures a != "net-10-0-0-5" && b != "net-10-0-0-5"
  {
    PlainMac(a);
    PlainMac(b);
  }

  /** Where a ghost has two hosts on its address, clean-up has outcomes that disagree on which device is active. */
  lemma CleanupsMayDiffer(a: string, b: string, x: string) returns (one: Store, other: Store)
    requires PlainText(a) && PlainText(b) && a != "" && b != "" && a != b && x != ""
    ensures CleanedUp(TwoHosts(a, b, x), one) && CleanedUp(TwoHosts(a, b, x), other)
    ensures Has(one, a) && Has(one, b) && one[a].isActive && !one[b].isActive
    ensures Has(other, a) && Has(other, b) && !other[a].isActive && other[b].isActive
  {
    one := HostDecides(a, b, x, a);
    other := HostDecides(a, b, x, b);
  }
}
