/**
 The deduplicator of BLE broadcasts: a map from packet keys to the last accepted sighting, pruned on
 every call. The reference it is compared with remembers every accepted packet forever.
 */
module BthomeDedup {
  import opened Options
  import opened Octets
  import opened Text

  datatype Key = PacketId(mac: string, id: byte) | PayloadHash(mac: string, hash: nat)

  datatype Entry = Entry(seenAt: nat, bestRssi: int, gateway: string)

  type Entries = map<Key, Entry>

  /** A broadcast as the deduplicator sees it. */
  datatype Packet = Packet(key: Key, at: nat, rssi: int, gateway: string)

  /** `duration_since`, which is zero for a moment in the future. */
  function Age(now: nat, since: nat): nat {
    if now < since then 0 else now - since
  }

  function Pruned(m: Entries, window: nat, now: nat): Entries {
    map k | k in m && Age(now, m[k].seenAt) < window * 2 :: m[k]
  }

  /** One call: the verdict and the entries afterwards. */
  function Step(window: nat, m: Entries, p: Packet): (Entries, bool) {
    var live := Pruned(m, window, p.at);
    if p.key in live && Age(p.at, live[p.key].seenAt) < window then
      var e := live[p.key];
      (if p.rssi > e.bestRssi then live[p.key := Entry(e.seenAt, p.rssi, p.gateway)] else live, true)
    else
      (live[p.key := Entry(p.at, p.rssi, p.gateway)], false)
  }

  /** Packets are told apart by their id if they carry one, else by the hash of their payload. */
  function KeyFor(hash: seq<byte> -> nat, mac: string, packetId: Option<byte>, payload: seq<byte>): Key {
    match packetId
    case Some(pid) => PacketId(Norm(mac), pid)
    case None => PayloadHash(Norm(mac), hash(payload))
  }

  class BTHomeDedup {
    const window: nat
    const hash: seq<byte> -> nat
    var records: Entries

    constructor (window: nat, hash: seq<byte> -> nat)
      ensures this.window == window && this.hash == hash && records == map[]
    {
      this.window, this.hash, records := window, hash, map[];
    }

    method IsDuplicate(mac: string, packetId: Option<byte>, payload: seq<byte>, rssi: int, gateway: string, now: nat)
      returns (duplicate: bool)
      modifies this`records
      ensures (records, duplicate) ==
        Step(window, old(records), Packet(KeyFor(hash, mac, packetId, payload), now, rssi, gateway))
    {
      var key := KeyFor(hash, mac, packetId, payload);
      records := map k | k in records && Age(now, records[k].seenAt) < window * 2 :: records[k];
      if key in records {
        var entry := records[key];
        if Age(now, entry.seenAt) < window {
          if rssi > entry.bestRssi {
            records := records[key := Entry(entry.seenAt, rssi, gateway)];
          }
          return true;
        }
      }
      records := records[key := Entry(now, rssi, gateway)];
      return false;
    }
  }

  // ---- Runs

  /** The entries after a run of packets. */
  function After(window: nat, ps: seq<Packet>): Entries {
    if ps == [] then map[] else Step(window, After(window, ps[..|ps| - 1]), ps[|ps| - 1]).0
  }

  /** The verdict on the last packet of a run. */
  predicate Duplicate(window: nat, ps: seq<Packet>)
    requires ps != []
  {
    Step(window, After(window, ps[..|ps| - 1]), ps[|ps| - 1]).1
  }

  lemma AfterNext(window: nat, ps: seq<Packet>, p: Packet)
    ensures After(window, ps + [p]) == Step(window, After(window, ps), p).0
  {
    assert (ps + [p])[..|ps|] == ps;
  }

  /** The reference verdict: some accepted packet of the same key, however long ago, is less than a window old. */
  ghost predicate RefDuplicate(window: nat, ps: seq<Packet>)
    requires ps != []
    decreases |ps|
  {
    var n := |ps| - 1;
    exists j | 0 <= j < n ::
      ps[j].key == ps[n].key && !RefDuplicate(window, ps[..j + 1]) && ps[n].at - ps[j].at < window
  }

  ghost predicate Ordered(ps: seq<Packet>) {
    forall i, j :: 0 <= i <= j < |ps| ==> ps[i].at <= ps[j].at
  }

  predicate AcceptedAt(window: nat, ps: seq<Packet>, i: nat)
    requires i < |ps|
  {
    !Duplicate(window, ps[..i + 1])
  }

  /** The index of the last accepted packet of key `k`. */
  function LastAccepted(window: nat, ps: seq<Packet>, k: Key): Option<nat> {
    if ps == [] then None
    else if ps[|ps| - 1].key == k && !Duplicate(window, ps) then Some(|ps| - 1)
    else LastAccepted(window, ps[..|ps| - 1], k)
  }

  lemma {:induction false} LastAcceptedIsLast(window: nat, ps: seq<Packet>, k: Key)
    ensures var a := LastAccepted(window, ps, k);
      && (a.Some? ==> a.value < |ps| && ps[a.value].key == k && AcceptedAt(window, ps, a.value))
      && (forall j | 0 <= j < |ps| && ps[j].key == k && AcceptedAt(window, ps, j) :: a.Some? && j <= a.value)
  {
    if ps != [] {
      var n := |ps| - 1;
      LastAcceptedIsLast(window, ps[..n], k);
      assert ps[..n + 1] == ps;
      forall j | 0 <= j < n ensures AcceptedAt(window, ps[..n], j) == AcceptedAt(window, ps, j) {
        assert ps[..n][..j + 1] == ps[..j + 1];
      }
    }
  }

  /**
   An entry in the map is the last accepted packet of its key, and the map holds exactly the keys whose last accepted
   packet is less than two windows old, or came just now.
   */
  lemma {:induction false} MapTracksLastAccepted(window: nat, ps: seq<Packet>, k: Key)
    requires Ordered(ps)
    ensures var m, a := After(window, ps), LastAccepted(window, ps, k);
      && (a.Some? ==> a.value < |ps|)
      && (k in m ==> a.Some? && m[k].seenAt == ps[a.value].at)
      && (k in m <==> a.Some? && (ps[|ps| - 1].at - ps[a.value].at < 2 * window || a.value == |ps| - 1))
  {
    if ps != [] {
      MapTracksLastAccepted(window, ps[..|ps| - 1], k);
    }
  }

  /** The verdict depends only on the last accepted packet of the same key. */
  lemma VerdictByLastAccepted(window: nat, ps: seq<Packet>)
    requires Ordered(ps) && ps != []
    ensures var n := |ps| - 1;
      var a := LastAccepted(window, ps[..n], ps[n].key);
      && (a.Some? ==> a.value < n)
      && (Duplicate(window, ps) <==> a.Some? && ps[n].at - ps[a.value].at < window)
  {
    MapTracksLastAccepted(window, ps[..|ps| - 1], ps[|ps| - 1].key);
  }

  /** With any clock: a packet is a duplicate if and only if the map has its key and less than a window has passed since. */
  lemma DuplicateByEntry(window: nat, ps: seq<Packet>)
    requires ps != []
    ensures var m, p := After(window, ps[..|ps| - 1]), ps[|ps| - 1];
      Duplicate(window, ps) <==> window > 0 && p.key in m && p.at < m[p.key].seenAt + window
  {
  }

  /** Pruning is safe: every verdict is the one of the reference that never forgets. */
  lemma {:induction false} PruningIsSafe(window: nat, ps: seq<Packet>)
    requires Ordered(ps) && ps != []
    ensures Duplicate(window, ps) <==> RefDuplicate(window, ps)
    decreases |ps|
  {
    var n := |ps| - 1;
    var a := LastAccepted(window, ps[..n], ps[n].key);
    VerdictByLastAccepted(window, ps);
    LastAcceptedIsLast(window, ps[..n], ps[n].key);
    forall j | 0 <= j < n ensures RefDuplicate(window, ps[..j + 1]) <==> !AcceptedAt(window, ps[..n], j) {
      PruningIsSafe(window, ps[..j + 1]);
      assert ps[..n][..j + 1] == ps[..j + 1];
    }
  }

  /**
   With a clock that never goes back, a packet is accepted if and only if at least a window has passed since every
   accepted packet of its key.
   */
  lemma AcceptedExactly(window: nat, ps: seq<Packet>, n: nat)
    requires Ordered(ps) && n < |ps|
    ensures AcceptedAt(window, ps, n) <==>
      forall j | 0 <= j < n && ps[j].key == ps[n].key && AcceptedAt(window, ps, j) :: ps[n].at - ps[j].at >= window
  {
    var qs := ps[..n + 1];
    VerdictByLastAccepted(window, qs);
    LastAcceptedIsLast(window, qs[..n], ps[n].key);
    forall j | 0 <= j < n ensures AcceptedAt(window, qs[..n], j) == AcceptedAt(window, ps, j) {
      assert qs[..n][..j + 1] == ps[..j + 1];
    }
  }

  /** In particular no packet is lost that comes a window after all the others of its key. */
  lemma RareAreAccepted(window: nat, ps: seq<Packet>, n: nat)
    requires Ordered(ps) && n < |ps| && forall j | 0 <= j < n && ps[j].key == ps[n].key :: ps[n].at - ps[j].at >= window
    ensures AcceptedAt(window, ps, n)
  {
    AcceptedExactly(window, ps, n);
  }

  // ---- Spacing

  /** Two accepted packets of one key are at least one window apart. */
  lemma AcceptedAreSpaced(window: nat, ps: seq<Packet>, i: nat, j: nat)
    requires Ordered(ps) && i < j < |ps| && ps[i].key == ps[j].key
    requires AcceptedAt(window, ps, i) && AcceptedAt(window, ps, j)
    ensures ps[j].at - ps[i].at >= window
  {
    var qs := ps[..j + 1];
    VerdictByLastAccepted(window, qs);
    LastAcceptedIsLast(window, qs[..j], ps[j].key);
    assert qs[..j][..i + 1] == ps[..i + 1];
    assert AcceptedAt(window, qs[..j], i);
  }

  /** How many packets of key `k` sent between `lo` and `hi` were accepted. */
  function Accepts(window: nat, ps: seq<Packet>, k: Key, lo: nat, hi: nat): nat {
    if ps == [] then 0
    else
      var n := |ps| - 1;
      Accepts(window, ps[..n], k, lo, hi) +
      if ps[n].key == k && lo <= ps[n].at <= hi && !Duplicate(window, ps) then 1 else 0
  }

  /** The last of `c` accepted packets is at least `c - 1` windows after `lo`. */
  lemma {:induction false} AcceptsPushForward(window: nat, ps: seq<Packet>, k: Key, lo: nat, hi: nat) returns (a: nat)
    requires Ordered(ps) && Accepts(window, ps, k, lo, hi) > 0
    ensures a < |ps| && ps[a].key == k && AcceptedAt(window, ps, a)
    ensures lo + (Accepts(window, ps, k, lo, hi) - 1) * window <= ps[a].at <= hi
  {
    var n := |ps| - 1;
    var c, c' := Accepts(window, ps[..n], k, lo, hi), Accepts(window, ps, k, lo, hi);
    assert ps[..n + 1] == ps;
    if c > 0 {
      a := AcceptsPushForward(window, ps[..n], k, lo, hi);
      assert ps[..n][..a + 1] == ps[..a + 1];
      assert AcceptedAt(window, ps, a);
      if c' > c {
        AcceptedAreSpaced(window, ps, a, n);
        OneMore(c, window);
        a := n;
      }
    } else {
      a := n;
    }
  }

  lemma OneMore(c: nat, w: nat)
    ensures (c + 1 - 1) * w == (c - 1) * w + w
  {
  }

  /** In a span of length `span` at most span / window + 1 packets of one key are accepted. */
  lemma AcceptsAreFew(window: nat, ps: seq<Packet>, k: Key, lo: nat, span: nat)
    requires Ordered(ps) && window > 0
    ensures Accepts(window, ps, k, lo, lo + span) <= span / window + 1
  {
    var c := Accepts(window, ps, k, lo, lo + span);
    if c > 0 {
      var a := AcceptsPushForward(window, ps, k, lo, lo + span);
      TimesFits(c - 1, window, span);
    }
  }

  lemma TimesFits(c: nat, w: nat, span: nat)
    requires c * w <= span && w > 0
    ensures c <= span / w
  {
    var q := span / w;
    assert span < q * w + w;
    assert (q + 1 - c) * w == q * w + w - c * w;
    PositiveFactor(q + 1 - c, w);
  }

  lemma PositiveFactor(x: int, w: nat)
    requires x * w > 0
    ensures x > 0
  {
  }

  // ---- Locality

  /** The packets of key `k`. */
  function Only(ps: seq<Packet>, k: Key): seq<Packet> {
    if ps == [] then []
    else if ps[|ps| - 1].key == k then Only(ps[..|ps| - 1], k) + [ps[|ps| - 1]]
    else Only(ps[..|ps| - 1], k)
  }

  lemma {:induction false} OnlyStaysOrdered(ps: seq<Packet>, k: Key)
    requires Ordered(ps)
    ensures Ordered(Only(ps, k))
    ensures forall q :: q in Only(ps, k) ==> q in ps
  {
    if ps != [] {
      var n := |ps| - 1;
      OnlyStaysOrdered(ps[..n], k);
      assert forall i :: 0 <= i < |Only(ps[..n], k)| ==> Only(ps[..n], k)[i] in ps[..n];
    }
  }

  /** When the last packet of key `k` was accepted. */
  function LastTime(window: nat, ps: seq<Packet>, k: Key): Option<nat> {
    if ps == [] then None
    else if ps[|ps| - 1].key == k && !Duplicate(window, ps) then Some(ps[|ps| - 1].at)
    else LastTime(window, ps[..|ps| - 1], k)
  }

  lemma {:induction false} LastTimeOfLastAccepted(window: nat, ps: seq<Packet>, k: Key)
    ensures var a := LastAccepted(window, ps, k);
      LastTime(window, ps, k) == if a.Some? && a.value < |ps| then Some(ps[a.value].at) else None
  {
    LastAcceptedIsLast(window, ps, k);
    if ps != [] {
      LastTimeOfLastAccepted(window, ps[..|ps| - 1], k);
      LastAcceptedIsLast(window, ps[..|ps| - 1], k);
    }
  }

  lemma VerdictByLastTime(window: nat, ps: seq<Packet>)
    requires Ordered(ps) && ps != []
    ensures var n := |ps| - 1;
      var t := LastTime(window, ps[..n], ps[n].key);
      Duplicate(window, ps) <==> t.Some? && ps[n].at - t.value < window
  {
    VerdictByLastAccepted(window, ps);
    LastTimeOfLastAccepted(window, ps[..|ps| - 1], ps[|ps| - 1].key);
  }

  lemma {:induction false} LastTimeIsLocal(window: nat, ps: seq<Packet>, k: Key)
    requires Ordered(ps)
    ensures LastTime(window, ps, k) == LastTime(window, Only(ps, k), k)
  {
    if ps != [] {
      var n := |ps| - 1;
      LastTimeIsLocal(window, ps[..n], k);
      if ps[n].key == k {
        var qs := Only(ps, k);
        assert qs[..|qs| - 1] == Only(ps[..n], k);
        OnlyStaysOrdered(ps, k);
        VerdictByLastTime(window, ps);
        VerdictByLastTime(window, qs);
      }
    }
  }

  /** A packet's verdict is the one it gets when the packets of all other keys are taken out of the run. */
  lemma VerdictsAreLocal(window: nat, ps: seq<Packet>)
    requires Ordered(ps) && ps != []
    ensures var qs := Only(ps, ps[|ps| - 1].key);
      qs != [] && (Duplicate(window, ps) <==> Duplicate(window, qs))
  {
    var n, k := |ps| - 1, ps[|ps| - 1].key;
    var qs := Only(ps, k);
    assert qs[..|qs| - 1] == Only(ps[..n], k);
    LastTimeIsLocal(window, ps[..n], k);
    OnlyStaysOrdered(ps, k);
    VerdictByLastTime(window, ps);
    VerdictByLastTime(window, qs);
  }

  // ---- Signal strength

  /** `e` has the strongest signal of key `k` from index `a` on, and the first gateway that reported it. */
  ghost predicate Strongest(ps: seq<Packet>, k: Key, a: nat, e: Entry) {
    exists i :: FirstStrongest(ps, k, a, e, i)
  }

  ghost predicate FirstStrongest(ps: seq<Packet>, k: Key, a: nat, e: Entry, i: nat) {
    && a <= i < |ps| && ps[i].key == k && ps[i].rssi == e.bestRssi && ps[i].gateway == e.gateway
    && (forall j :: a <= j < |ps| && ps[j].key == k ==> ps[j].rssi <= e.bestRssi)
    && (forall j :: a <= j < i && ps[j].key == k ==> ps[j].rssi < e.bestRssi)
  }

  /**
   A live entry holds the strongest signal among the packets of its key since the last accepted one,
   together with the first gateway that reported it. This holds for any clock.
   */
  lemma {:induction false} EntryIsStrongest(window: nat, ps: seq<Packet>, k: Key)
    requires k in After(window, ps)
    ensures var a := LastAccepted(window, ps, k);
      a.Some? && Strongest(ps, k, a.value, After(window, ps)[k])
  {
    var n := |ps| - 1;
    var m, p := After(window, ps[..n]), ps[n];
    if p.key == k && !Duplicate(window, ps) {
      assert FirstStrongest(ps, k, n, After(window, ps)[k], n);
    } else {
      assert k in m;
      EntryIsStrongest(window, ps[..n], k);
      var a := LastAccepted(window, ps[..n], k).value;
      var i :| FirstStrongest(ps[..n], k, a, m[k], i);
      if p.key == k && p.rssi > m[k].bestRssi {
        assert FirstStrongest(ps, k, a, After(window, ps)[k], n);
      } else {
        StrongestExtends(ps, k, a, m[k], i);
      }
    }
  }

  lemma StrongestExtends(ps: seq<Packet>, k: Key, a: nat, e: Entry, i: nat)
    requires ps != [] && FirstStrongest(ps[..|ps| - 1], k, a, e, i)
    requires ps[|ps| - 1].key == k ==> ps[|ps| - 1].rssi <= e.bestRssi
    ensures FirstStrongest(ps, k, a, e, i)
  {
  }
}
