/**
 `cleanup_duplicates`: every record is moved under its own key, then ghosts (records without a MAC
 on the IP of a record with one) are absorbed. The order in which a hash map is drained or
 iterated is arbitrary, so every order is an explicit argument here.
 */
module HistoryCleanup {
  import opened HistoryRecords
  import opened Sequences

  /** `order` lists the keys of `m` once each: one way in which the map may be iterated. */
  ghost predicate IsOrder(order: seq<string>, m: Store) {
    NoDuplicates(order) && Elements(order) == m.Keys
  }

  // ---- Phase 1: re-keying

  function Placed(m: Store, r: Record): Store {
    var k := KeyOf(r);
    if k in m then m[k := Merged(m[k], r)] else m[k := r]
  }

  /** Drains `m` in the given order into a fresh map. */
  ghost function Rekeyed(m: Store, order: seq<string>): Store
    requires Elements(order) <= m.Keys
  {
    if order == [] then map[]
    else
      var init, k := order[..|order| - 1], order[|order| - 1];
      assert k in Elements(order) && Elements(init) <= Elements(order);
      Placed(Rekeyed(m, init), m[k])
  }

  // ---- Phase 2: ghosts

  predicate BearsMac(r: Record) { r.mac.Some? && r.ip != "" }

  predicate Roams(r: Record) { r.mac.None? && r.ip != "" }

  /** The table built by the source from IPs to keys of MAC-bearing records; on a shared IP any of them may stay. */
  ghost predicate IsHostTable(hosts: map<string, string>, m: Store) {
    && (forall k :: Has(m, k) && BearsMac(m[k]) ==> m[k].ip in hosts)
    && (forall ip :: ip in hosts ==> Has(m, hosts[ip]) && BearsMac(m[hosts[ip]]) && m[hosts[ip]].ip == ip)
  }

  function Ghosts(m: Store, hosts: map<string, string>): set<string> {
    set k | k in m && Roams(m[k]) && m[k].ip in hosts
  }

  /** The removals the source collects: each ghost once, with the host of its IP. */
  ghost predicate IsGhostList(ghosts: seq<string>, m: Store, hosts: map<string, string>) {
    NoDuplicates(ghosts) && Elements(ghosts) == Ghosts(m, hosts)
  }

  function Absorbed(m: Store, g: string, h: string): Store {
    if g !in m then m
    else
      var rest := m - {g};
      if h in rest then rest[h := Merged(rest[h], m[g])] else rest
  }

  ghost function AllAbsorbed(m: Store, ghosts: seq<string>, hosts: map<string, string>): Store
    requires Elements(ghosts) <= Ghosts(m, hosts)
  {
    if ghosts == [] then m
    else
      var init, g := ghosts[..|ghosts| - 1], ghosts[|ghosts| - 1];
      assert g in Elements(ghosts) && Elements(init) <= Elements(ghosts);
      Absorbed(AllAbsorbed(m, init, hosts), g, hosts[m[g].ip])
  }

  /** `after` is a possible outcome of cleaning up `before`. */
  ghost predicate CleanedUp(before: Store, after: Store) {
    exists order, hosts, ghosts :: CleanedUpVia(before, order, hosts, ghosts, after)
  }

  ghost predicate CleanedUpVia(
    before: Store, order: seq<string>, hosts: map<string, string>, ghosts: seq<string>, after: Store)
  {
    && IsOrder(order, before)
    && var mid := Rekeyed(before, order);
    && IsHostTable(hosts, mid)
    && IsGhostList(ghosts, mid, hosts)
    && after == AllAbsorbed(mid, ghosts, hosts)
  }

  // ---- Normal form

  /** No record without a MAC sits on the IP of a record with one. */
  ghost predicate GhostFree(m: Store) {
    forall k, h :: Has(m, k) && Has(m, h) && Roams(m[k]) && BearsMac(m[h]) ==> m[k].ip != m[h].ip
  }

  ghost predicate NormalForm(m: Store) {
    Canonical(m) && GhostFree(m)
  }

  // ---- Phase 1 facts

  lemma Prefix(order: seq<string>)
    requires order != []
    ensures Elements(order) == Elements(order[..|order| - 1]) + {order[|order| - 1]}
    ensures NoDuplicates(order) ==>
      order[|order| - 1] !in Elements(order[..|order| - 1]) && NoDuplicates(order[..|order| - 1])
  {
    assert order == order[..|order| - 1] + [order[|order| - 1]];
  }

  /** Iterating one key further. */
  lemma OrderNext(order: seq<string>, k: string)
    requires NoDuplicates(order) && k !in Elements(order)
    ensures NoDuplicates(order + [k]) && Elements(order + [k]) == Elements(order) + {k}
    ensures (order + [k])[..|order|] == order
  {
    AppendOne(order, k);
    assert forall x :: x in order ==> x in Elements(order);
  }

  lemma RekeyedNext(m: Store, order: seq<string>, k: string)
    requires Elements(order) <= m.Keys && k in m && NoDuplicates(order) && k !in Elements(order)
    ensures Elements(order + [k]) <= m.Keys
    ensures Rekeyed(m, order + [k]) == Placed(Rekeyed(m, order), m[k])
  {
    OrderNext(order, k);
  }

  lemma AbsorbedNext(m: Store, ghosts: seq<string>, hosts: map<string, string>, g: string)
    requires Elements(ghosts) <= Ghosts(m, hosts) && g in Ghosts(m, hosts)
    requires NoDuplicates(ghosts) && g !in Elements(ghosts)
    ensures Elements(ghosts + [g]) <= Ghosts(m, hosts)
    ensures AllAbsorbed(m, ghosts + [g], hosts) == Absorbed(AllAbsorbed(m, ghosts, hosts), g, hosts[m[g].ip])
  {
    OrderNext(ghosts, g);
  }

  lemma {:induction false} RekeyedIsCanonical(m: Store, order: seq<string>)
    requires Elements(order) <= m.Keys
    ensures Canonical(Rekeyed(m, order))
  {
    if order != [] {
      var init, k := order[..|order| - 1], order[|order| - 1];
      Prefix(order);
      RekeyedIsCanonical(m, init);
      var mid := Rekeyed(m, init);
      if KeyOf(m[k]) in mid {
        assert Has(mid, KeyOf(m[k]));
        MergeKeepsIdentity(mid[KeyOf(m[k])], m[k]);
      }
      forall j | Has(Rekeyed(m, order), j) ensures KeyOf(Rekeyed(m, order)[j]) == j {
        assert j != KeyOf(m[k]) ==> Has(mid, j);
      }
    }
  }

  /** The part of `m` already drained. */
  ghost function Drained(m: Store, order: seq<string>): Store {
    map k | k in m && k in Elements(order) :: m[k]
  }

  lemma DrainedNext(m: Store, order: seq<string>)
    requires order != [] && NoDuplicates(order) && Elements(order) <= m.Keys
    ensures var init, k := order[..|order| - 1], order[|order| - 1];
      k in m && k !in Drained(m, init) && Drained(m, order) == Drained(m, init)[k := m[k]]
  {
    Prefix(order);
    var init, k := order[..|order| - 1], order[|order| - 1];
  }

  lemma {:induction false} RekeyingKeepsEvidence(m: Store, order: seq<string>)
    requires NoDuplicates(order) && Elements(order) <= m.Keys
    ensures StoreEvidence(Rekeyed(m, order)) == StoreEvidence(Drained(m, order))
  {
    if order == [] {
      assert Drained(m, order) == map[];
    } else {
      var init, k := order[..|order| - 1], order[|order| - 1];
      DrainedNext(m, order);
      Prefix(order);
      RekeyingKeepsEvidence(m, init);
      StoreEvidenceAdd(Drained(m, init), k, m[k]);
      var mid, key := Rekeyed(m, init), KeyOf(m[k]);
      if key in mid {
        StoreEvidenceMerge(mid, key, m[k]);
      } else {
        StoreEvidenceAdd(mid, key, m[k]);
      }
    }
  }

  /** The records of `m` that belong under key `key`. */
  ghost function Under(m: Store, key: string): Store {
    map k | k in m && KeyOf(m[k]) == key :: m[k]
  }

  /** Key `key` stands for the records of `part`: it is there if they are, with their joint evidence. */
  ghost predicate StandsFor(mid: Store, key: string, part: Store) {
    && (key in mid <==> part != map[])
    && (key in mid ==> EvidenceOf(mid[key]) == StoreEvidence(part))
  }

  lemma PlacingHere(mid: Store, part: Store, k: string, r: Record)
    requires k !in part && StandsFor(mid, KeyOf(r), part)
    ensures StandsFor(Placed(mid, r), KeyOf(r), part[k := r])
  {
    StoreEvidenceAdd(part, k, r);
    if part == map[] {
      JoinIsSemilattice(EvidenceOf(r), NOTHING, NOTHING);
    } else {
      MergeJoinsEvidence(mid[KeyOf(r)], r);
      JoinIsSemilattice(StoreEvidence(part), EvidenceOf(r), NOTHING);
    }
    assert k in part[k := r];
  }

  lemma PlacingNext(mid: Store, done: Store, key: string, k: string, r: Record)
    requires k !in done && StandsFor(mid, key, Under(done, key))
    ensures StandsFor(Placed(mid, r), key, Under(done[k := r], key))
  {
    if KeyOf(r) == key {
      assert Under(done[k := r], key) == Under(done, key)[k := r];
      PlacingHere(mid, Under(done, key), k, r);
    } else {
      assert Under(done[k := r], key) == Under(done, key);
    }
  }

  /** Re-keying gives each key the evidence of the records that belong there, whatever the order. */
  lemma {:induction false} RekeyingIsOrderBlind(m: Store, order: seq<string>, key: string)
    requires NoDuplicates(order) && Elements(order) <= m.Keys
    ensures StandsFor(Rekeyed(m, order), key, Under(Drained(m, order), key))
  {
    if order == [] {
      assert Under(Drained(m, order), key) == map[];
    } else {
      var init, k := order[..|order| - 1], order[|order| - 1];
      DrainedNext(m, order);
      Prefix(order);
      RekeyingIsOrderBlind(m, init, key);
      PlacingNext(Rekeyed(m, init), Drained(m, init), key, k, m[k]);
    }
  }

  /** A record whose key no other record shares arrives there untouched. */
  lemma {:induction false} LonelyRecordIsMoved(m: Store, order: seq<string>, k: string)
    requires NoDuplicates(order) && Elements(order) <= m.Keys && k in m
    requires forall j :: Has(m, j) && KeyOf(m[j]) == KeyOf(m[k]) ==> j == k
    ensures k !in Elements(order) ==> KeyOf(m[k]) !in Rekeyed(m, order)
    ensures k in Elements(order) ==> KeyOf(m[k]) in Rekeyed(m, order) && Rekeyed(m, order)[KeyOf(m[k])] == m[k]
  {
    if order != [] {
      Prefix(order);
      var init, j := order[..|order| - 1], order[|order| - 1];
      assert Has(m, j);
      LonelyRecordIsMoved(m, init, k);
    }
  }

  /** On a canonical store re-keying does nothing, in any order. */
  lemma {:induction false} RekeyingCanonical(m: Store, order: seq<string>)
    requires Canonical(m) && NoDuplicates(order) && Elements(order) <= m.Keys
    ensures Rekeyed(m, order) == Drained(m, order)
  {
    if order == [] {
      assert Drained(m, order) == map[];
    } else {
      DrainedNext(m, order);
      Prefix(order);
      assert Has(m, order[|order| - 1]);
      RekeyingCanonical(m, order[..|order| - 1]);
    }
  }

  lemma DrainedAll(m: Store, order: seq<string>)
    requires IsOrder(order, m)
    ensures Drained(m, order) == m
  {
    assert forall k :: k in m ==> k in Elements(order);
  }

  // ---- Phase 2 facts

  /** A record after some absorptions: all it takes from ghosts is evidence. */
  ghost predicate SameHolder(r: Record, r': Record) {
    r'.deviceId == r.deviceId && r'.ip == r.ip && r'.mac == r.mac
  }

  lemma AbsorbingOne(m: Store, g: string, h: string)
    requires g in m && h in m && g != h && m[h].mac.Some?
    ensures var m' := Absorbed(m, g, h);
      && m'.Keys == m.Keys - {g}
      && SameHolder(m[h], m'[h])
      && (forall k :: k in m' && k != h ==> m'[k] == m[k])
      && StoreEvidence(m') == StoreEvidence(m)
  {
    StoreEvidenceSplit(m, g);
    StoreEvidenceMerge(m - {g}, h, m[g]);
    MergeKeepsIdentity(m[h], m[g]);
  }

  /** The ghosts among `gone` are absorbed by the record under `k`, at least one of them. */
  ghost predicate TakesIn(m: Store, gone: set<string>, hosts: map<string, string>, k: string) {
    exists g :: g in gone && Has(m, g) && m[g].ip in hosts && hosts[m[g].ip] == k
  }

  /** What absorbing some of the ghosts of `m` leaves: only the records that take one in are changed. */
  ghost predicate Thinned(m: Store, gone: set<string>, hosts: map<string, string>, m': Store) {
    && m'.Keys == m.Keys - gone
    && (forall k :: Has(m', k) ==> SameHolder(m[k], m'[k]))
    && (forall k :: Has(m', k) && (m[k].mac.None? || !TakesIn(m, gone, hosts, k)) ==> m'[k] == m[k])
  }

  /**
   While ghosts are absorbed, exactly the ghosts leave, hosts keep their identity, every record that takes
   no ghost in stays as it was, and no evidence is lost.
   */
  lemma {:induction false} AbsorbingKeepsHolders(m: Store, ghosts: seq<string>, hosts: map<string, string>)
    requires IsHostTable(hosts, m) && NoDuplicates(ghosts) && Elements(ghosts) <= Ghosts(m, hosts)
    ensures Thinned(m, Elements(ghosts), hosts, AllAbsorbed(m, ghosts, hosts))
    ensures StoreEvidence(AllAbsorbed(m, ghosts, hosts)) == StoreEvidence(m)
  {
    if ghosts != [] {
      Prefix(ghosts);
      var init, g := ghosts[..|ghosts| - 1], ghosts[|ghosts| - 1];
      AbsorbingKeepsHolders(m, init, hosts);
      assert g in Ghosts(m, hosts);
      HostOf(m, hosts, g);
      ThinnedOnce(m, Elements(init), hosts, AllAbsorbed(m, init, hosts), g);
    }
  }

  lemma HostOf(m: Store, hosts: map<string, string>, g: string)
    requires IsHostTable(hosts, m) && g in Ghosts(m, hosts)
    ensures var h := hosts[m[g].ip];
      h in m && m[h].mac.Some? && m[h].ip == m[g].ip && h != g && h !in Ghosts(m, hosts)
  {
    assert Has(m, hosts[m[g].ip]);
  }

  lemma ThinnedOnce(m: Store, gone: set<string>, hosts: map<string, string>, mid: Store, g: string)
    requires Thinned(m, gone, hosts, mid) && g in m && g !in gone && m[g].ip in hosts
    requires var h := hosts[m[g].ip]; h in m && h !in gone && g != h && m[h].mac.Some?
    ensures var after := Absorbed(mid, g, hosts[m[g].ip]);
      Thinned(m, gone + {g}, hosts, after) && StoreEvidence(after) == StoreEvidence(mid)
  {
    var h := hosts[m[g].ip];
    var after := Absorbed(mid, g, h);
    assert Has(mid, g) && Has(mid, h) && Has(m, g);
    AbsorbingOne(mid, g, h);
    forall k | Has(after, k) && k != h ensures Has(mid, k) && after[k] == mid[k] {
    }
    TakingInMore(m, gone, hosts, g);
  }

  lemma TakingInMore(m: Store, gone: set<string>, hosts: map<string, string>, g: string)
    requires Has(m, g) && m[g].ip in hosts
    ensures TakesIn(m, gone + {g}, hosts, hosts[m[g].ip])
    ensures forall k :: TakesIn(m, gone, hosts, k) ==> TakesIn(m, gone + {g}, hosts, k)
  {
    assert g in gone + {g};
    forall k | TakesIn(m, gone, hosts, k) ensures TakesIn(m, gone + {g}, hosts, k) {
      var x :| x in gone && Has(m, x) && m[x].ip in hosts && hosts[m[x].ip] == k;
      assert x in gone + {g};
    }
  }

  // ---- Main results

  /** From any store and in any order, clean-up reaches the normal form. */
  lemma CleanupNormalises(before: Store, after: Store)
    requires CleanedUp(before, after)
    ensures NormalForm(after)
  {
    var order, hosts, ghosts :| CleanedUpVia(before, order, hosts, ghosts, after);
    var mid := Rekeyed(before, order);
    RekeyedIsCanonical(before, order);
    AbsorbingKeepsHolders(mid, ghosts, hosts);
    forall k | Has(after, k) ensures KeyOf(after[k]) == k {
      assert Has(mid, k);
    }
    forall k, h | Has(after, k) && Has(after, h) && Roams(after[k]) && BearsMac(after[h])
      ensures after[k].ip != after[h].ip
    {
      assert Has(mid, h) && BearsMac(mid[h]);
      assert Has(mid, k) && k !in Ghosts(mid, hosts);
    }
  }

  /** On a store in normal form clean-up changes nothing, so running it twice is running it once. */
  lemma CleanupIsIdempotent(before: Store, after: Store)
    requires CleanedUp(before, after) && NormalForm(before)
    ensures after == before
  {
    var order, hosts, ghosts :| CleanedUpVia(before, order, hosts, ghosts, after);
    RekeyingCanonical(before, order);
    DrainedAll(before, order);
    NoGhostsLeft(before, hosts);
    if ghosts != [] {
      assert ghosts[0] in Elements(ghosts);
    }
  }

  /** Absorbed are exactly the records without a MAC on the address, if they have one, of a record with a MAC. */
  lemma GhostsAreTold(m: Store, hosts: map<string, string>, k: string)
    requires IsHostTable(hosts, m)
    ensures k in Ghosts(m, hosts) <==>
      Has(m, k) && m[k].mac.None? && m[k].ip != "" && exists h :: Has(m, h) && m[h].mac.Some? && m[h].ip == m[k].ip
  {
    if h :| Has(m, k) && m[k].ip != "" && Has(m, h) && m[h].mac.Some? && m[h].ip == m[k].ip {
      assert BearsMac(m[h]);
    }
  }

  lemma NoGhostsLeft(m: Store, hosts: map<string, string>)
    requires GhostFree(m) && IsHostTable(hosts, m)
    ensures Ghosts(m, hosts) == {}
  {
    assert forall k :: k in m && m[k].ip in hosts ==> Has(m, k) && Has(m, hosts[m[k].ip]);
  }

  /** Clean-up conserves the evidence of the store: no ghost is dropped unmerged. */
  lemma CleanupConservesEvidence(before: Store, after: Store)
    requires CleanedUp(before, after)
    ensures StoreEvidence(after) == StoreEvidence(before)
  {
    var order, hosts, ghosts :| CleanedUpVia(before, order, hosts, ghosts, after);
    RekeyingKeepsEvidence(before, order);
    DrainedAll(before, order);
    AbsorbingKeepsHolders(Rekeyed(before, order), ghosts, hosts);
  }

  /** Two drains of one store, in whatever orders, agree on the keys and on the evidence under each key. */
  lemma RekeyingOrdersAgree(m: Store, order1: seq<string>, order2: seq<string>)
    requires IsOrder(order1, m) && IsOrder(order2, m)
    ensures Rekeyed(m, order1).Keys == Rekeyed(m, order2).Keys
    ensures forall k :: Has(Rekeyed(m, order1), k) ==>
      Has(Rekeyed(m, order2), k) && EvidenceOf(Rekeyed(m, order1)[k]) == EvidenceOf(Rekeyed(m, order2)[k])
  {
    DrainedAll(m, order1);
    DrainedAll(m, order2);
    forall k ensures k in Rekeyed(m, order1) <==> k in Rekeyed(m, order2) {
      RekeyingIsOrderBlind(m, order1, k);
      RekeyingIsOrderBlind(m, order2, k);
    }
    forall k | Has(Rekeyed(m, order1), k)
      ensures Has(Rekeyed(m, order2), k)
      ensures EvidenceOf(Rekeyed(m, order1)[k]) == EvidenceOf(Rekeyed(m, order2)[k])
    {
      RekeyingIsOrderBlind(m, order1, k);
      RekeyingIsOrderBlind(m, order2, k);
    }
  }

  // ---- What clean-up keeps of single records

  /** Any property of records that merging respects survives clean-up. */
  lemma CleanupPreserves(before: Store, after: Store, p: Record -> bool)
    requires CleanedUp(before, after)
    requires forall a, b :: p(a) && p(b) ==> p(Merged(a, b))
    requires forall k :: Has(before, k) ==> p(before[k])
    ensures forall k :: Has(after, k) ==> p(after[k])
  {
    var order, hosts, ghosts :| CleanedUpVia(before, order, hosts, ghosts, after);
    RekeyingPreserves(before, order, p);
    AbsorbingPreserves(Rekeyed(before, order), ghosts, hosts, p);
  }

  lemma {:induction false} RekeyingPreserves(m: Store, order: seq<string>, p: Record -> bool)
    requires Elements(order) <= m.Keys
    requires forall a, b :: p(a) && p(b) ==> p(Merged(a, b))
    requires forall k :: Has(m, k) ==> p(m[k])
    ensures forall k :: Has(Rekeyed(m, order), k) ==> p(Rekeyed(m, order)[k])
  {
    if order != [] {
      Prefix(order);
      var init, k := order[..|order| - 1], order[|order| - 1];
      RekeyingPreserves(m, init, p);
      var mid := Rekeyed(m, init);
      assert Has(m, k);
      assert KeyOf(m[k]) in mid ==> Has(mid, KeyOf(m[k]));
      assert forall j :: Has(Rekeyed(m, order), j) && j != KeyOf(m[k]) ==> Has(mid, j);
    }
  }

  lemma {:induction false} AbsorbingPreserves(
    m: Store, ghosts: seq<string>, hosts: map<string, string>, p: Record -> bool)
    requires Elements(ghosts) <= Ghosts(m, hosts)
    requires forall a, b :: p(a) && p(b) ==> p(Merged(a, b))
    requires forall k :: Has(m, k) ==> p(m[k])
    ensures forall k :: Has(AllAbsorbed(m, ghosts, hosts), k) ==> p(AllAbsorbed(m, ghosts, hosts)[k])
  {
    if ghosts != [] {
      Prefix(ghosts);
      var init, g := ghosts[..|ghosts| - 1], ghosts[|ghosts| - 1];
      AbsorbingPreserves(m, init, hosts, p);
      var mid, h := AllAbsorbed(m, init, hosts), hosts[m[g].ip];
      assert g in mid ==> Has(mid, g);
      assert h in mid ==> Has(mid, h);
      assert forall j :: Has(Absorbed(mid, g, h), j) ==> Has(mid, j);
    }
  }

  /** One absorption, seen from the store before any of them. */
  lemma AbsorbingNext(m: Store, ghosts: seq<string>, hosts: map<string, string>)
    requires IsHostTable(hosts, m) && NoDuplicates(ghosts) && Elements(ghosts) <= Ghosts(m, hosts) && ghosts != []
    ensures var mid, g := AllAbsorbed(m, ghosts[..|ghosts| - 1], hosts), ghosts[|ghosts| - 1];
      && g in Ghosts(m, hosts) && g in mid && mid[g] == m[g]
      && var h := hosts[m[g].ip];
      && h in mid && h in m && h != g && m[h].ip == m[g].ip
      && AllAbsorbed(m, ghosts, hosts) == (mid - {g})[h := Merged(mid[h], m[g])]
  {
    Prefix(ghosts);
    var init, g := ghosts[..|ghosts| - 1], ghosts[|ghosts| - 1];
    assert g in Ghosts(m, hosts);
    HostOf(m, hosts, g);
    var mid := AllAbsorbed(m, init, hosts);
    assert g in mid && mid[g] == m[g] && hosts[m[g].ip] in mid by {
      AbsorbingKeepsHolders(m, init, hosts);
      assert Has(mid, g);
    }
  }

  /** If merging any ghost of its IP respects `rel`, then `rel` holds between a host and what it becomes. */
  lemma {:induction false} AbsorbingAdvances(
    m: Store, ghosts: seq<string>, hosts: map<string, string>, a: string,
    p: Record -> bool, rel: (Record, Record) -> bool)
    requires IsHostTable(hosts, m) && NoDuplicates(ghosts) && Elements(ghosts) <= Ghosts(m, hosts)
    requires a in m && a !in Ghosts(m, hosts)
    requires forall g :: g in Ghosts(m, hosts) && m[g].ip == m[a].ip ==> p(m[g])
    requires rel(m[a], m[a])
    requires forall t: Record, g: Record :: rel(m[a], t) && p(g) ==> rel(m[a], Merged(t, g))
    ensures a in AllAbsorbed(m, ghosts, hosts) && rel(m[a], AllAbsorbed(m, ghosts, hosts)[a])
  {
    if ghosts != [] {
      Prefix(ghosts);
      AbsorbingNext(m, ghosts, hosts);
      AbsorbingAdvances(m, ghosts[..|ghosts| - 1], hosts, a, p, rel);
    }
  }

  /**
   A MAC-bearing record whose key no other record shares ends under that key with its identity, and any
   relation that merging a ghost into it respects holds between it and what it becomes.
   */
  lemma CleanupAdvances(before: Store, after: Store, k: string, rel: (Record, Record) -> bool)
    requires CleanedUp(before, after)
    requires k in before && before[k].mac.Some?
    requires forall j :: Has(before, j) && KeyOf(before[j]) == KeyOf(before[k]) ==> j == k
    requires rel(before[k], before[k])
    requires forall t: Record, g: Record :: rel(before[k], t) && g.mac.None? ==> rel(before[k], Merged(t, g))
    ensures KeyOf(before[k]) in after && rel(before[k], after[KeyOf(before[k])])
    ensures SameHolder(before[k], after[KeyOf(before[k])])
  {
    var order, hosts, ghosts :| CleanedUpVia(before, order, hosts, ghosts, after);
    LonelyRecordIsMoved(before, order, k);
    var mid, a := Rekeyed(before, order), KeyOf(before[k]);
    AbsorbingAdvances(mid, ghosts, hosts, a, (g: Record) => g.mac.None?, rel);
    AbsorbingKeepsHolders(mid, ghosts, hosts);
    assert Has(after, a);
  }

  /** Absorbing inactive ghosts leaves their host's activity alone. */
  lemma AbsorbingInactive(m: Store, ghosts: seq<string>, hosts: map<string, string>, a: string)
    requires IsHostTable(hosts, m) && IsGhostList(ghosts, m, hosts) && a in m && a !in Ghosts(m, hosts)
    requires forall g :: g in Ghosts(m, hosts) && m[g].ip == m[a].ip ==> !m[g].isActive
    ensures a in AllAbsorbed(m, ghosts, hosts) && AllAbsorbed(m, ghosts, hosts)[a].isActive == m[a].isActive
  {
    AbsorbingAdvances(m, ghosts, hosts, a, (g: Record) => !g.isActive,
      (r: Record, t: Record) => r.isActive == t.isActive);
  }

  /** The IP under a key is the IP of one of the records that belong there. */
  lemma {:induction false} RekeyedIpOrigin(m: Store, order: seq<string>, key: string) returns (j: string)
    requires Elements(order) <= m.Keys && key in Rekeyed(m, order)
    ensures j in m && KeyOf(m[j]) == key && m[j].ip == Rekeyed(m, order)[key].ip
  {
    Prefix(order);
    var init, k := order[..|order| - 1], order[|order| - 1];
    if key in Rekeyed(m, init) {
      j := RekeyedIpOrigin(m, init, key);
    } else {
      j := k;
    }
  }
}
