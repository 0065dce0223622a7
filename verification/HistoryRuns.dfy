/** What the history never forgets over unbounded runs of sweeps and forget commands. */
module HistoryRuns {
  import opened Text
  import opened HistoryRecords
  import opened HistoryCleanup
  import opened HistorySweep
  import opened HistoryRetention
  import opened HistoryTakeover
  import opened HistoryChains

  // ---- Forgetting

  /** The record under `k` answers to the (normalised) id or MAC `needle`. */
  predicate Answers(k: string, r: Record, needle: string) {
    Lower(k) == needle || Lower(r.deviceId) == needle || (r.mac.Some? && Lower(r.mac.value) == needle)
  }

  function Forgotten(m: Store, needle: string): Store {
    map k | k in m && !Answers(k, m[k], needle) :: m[k]
  }

  /** Forgetting leaves exactly the records of which neither key nor id nor MAC is the text, trimmed and in any case. */
  lemma ForgetsOnlyWhatAnswers(m: Store, text: string, k: string)
    ensures Has(Forgotten(m, Norm(text)), k) <==>
      && Has(m, k) && Lower(k) != Lower(Trim(text)) && Lower(m[k].deviceId) != Lower(Trim(text))
      && (m[k].mac.Some? ==> Lower(m[k].mac.value) != Lower(Trim(text)))
    ensures Has(Forgotten(m, Norm(text)), k) ==> Forgotten(m, Norm(text))[k] == m[k]
  {
  }

  lemma ForgettingKeepsInvariants(m: Store, needle: string, now: Time)
    ensures Tidy(m) ==> Tidy(Forgotten(m, needle))
    ensures NormalForm(m) ==> NormalForm(Forgotten(m, needle))
    ensures AllTimely(m, now) ==> AllTimely(Forgotten(m, needle), now)
  {
    assert forall k :: Has(Forgotten(m, needle), k) ==> Has(m, k);
  }

  /** In a store in normal form, forgetting a MAC in any spelling removes it from the history. */
  lemma ForgettingAMacForgetsIt(m: Store, spelling: string)
    requires NormalForm(m)
    ensures !MacHeld(Forgotten(m, Norm(spelling)), Norm(spelling))
  {
    var a := Norm(spelling);
    NormIsStable(spelling);
    forall k ensures !HoldsMac(Forgotten(m, a), k, a) {
      assert Has(Forgotten(m, a), k) ==> Has(m, k);
    }
  }

  // ---- Runs

  datatype Event = Sweep(devs: seq<Device>, now: Time) | Forget(needle: string)

  ghost predicate Step(s: Store, e: Event, s': Store) {
    match e
    case Sweep(devs, now) => Reconciled(s, devs, now, s')
    case Forget(needle) => s' == Forgotten(s, Norm(needle))
  }

  ghost predicate StepAt(stores: seq<Store>, events: seq<Event>, i: nat)
    requires i < |events| && |stores| == |events| + 1
  {
    Step(stores[i], events[i], stores[i + 1])
  }

  ghost predicate IsRun(stores: seq<Store>, events: seq<Event>) {
    |stores| == |events| + 1 && forall i: nat :: i < |events| ==> StepAt(stores, events, i)
  }

  ghost predicate ClockAt(clocks: seq<Time>, events: seq<Event>, i: nat)
    requires i < |events| && |clocks| == |events| + 1
  {
    clocks[i] <= clocks[i + 1] && (events[i].Sweep? ==> clocks[i + 1] == events[i].now)
  }

  /** `clocks[i]` is the time of the last sweep before store `i`; it never goes back. */
  ghost predicate IsClock(clocks: seq<Time>, events: seq<Event>) {
    |clocks| == |events| + 1 && forall i: nat :: i < |events| ==> ClockAt(clocks, events, i)
  }

  ghost predicate IsGoodRun(stores: seq<Store>, events: seq<Event>) {
    IsRun(stores, events) && forall i :: 0 <= i < |events| && events[i].Sweep? ==> GoodSweep(events[i].devs)
  }

  /** Any events may follow on any store, so the theorems over runs are not empty. */
  lemma {:induction false} RunsExist(s: Store, events: seq<Event>) returns (stores: seq<Store>)
    ensures IsRun(stores, events) && stores[0] == s
  {
    if events == [] {
      stores := [s];
    } else {
      var n := |events| - 1;
      var before := RunsExist(s, events[..n]);
      var after := NextStore(before[n], events[n]);
      stores := before + [after];
      forall i: nat | i < |events| ensures StepAt(stores, events, i) {
        assert i < n ==> StepAt(before, events[..n], i);
      }
    }
  }

  lemma NextStore(s: Store, e: Event) returns (s': Store)
    ensures Step(s, e, s')
    ensures e.Forget? && NormalForm(s) ==> !MacHeld(s', Norm(e.needle))
  {
    match e {
      case Sweep(devs, now) => s' := ReconcileExists(s, devs, now);
      case Forget(needle) =>
        s' := Forgotten(s, Norm(needle));
        if NormalForm(s) { ForgettingAMacForgetsIt(s, needle); }
    }
  }

  /** Over any run at all, times stay in order, and right after a sweep only what it saw is active. */
  lemma {:induction false} RunsStayTimely(stores: seq<Store>, events: seq<Event>, clocks: seq<Time>, i: nat)
    requires IsRun(stores, events) && IsClock(clocks, events) && AllTimely(stores[0], clocks[0]) && i < |stores|
    ensures AllTimely(stores[i], clocks[i])
    ensures i > 0 && events[i - 1].Sweep? ==>
      NormalForm(stores[i]) && forall k :: Has(stores[i], k) ==> Current(stores[i][k], clocks[i])
  {
    if i > 0 {
      RunsStayTimely(stores, events, clocks, i - 1);
      var s, s' := stores[i - 1], stores[i];
      assert StepAt(stores, events, i - 1) && ClockAt(clocks, events, i - 1);
      match events[i - 1] {
        case Sweep(devs, now) =>
          assert AllTimely(s, now);
          ReconciledIsCurrent(s, devs, now, s');
          ReconciledIsNormal(s, devs, now, s');
        case Forget(needle) =>
          assert AllTimely(s, clocks[i]);
          ForgettingKeepsInvariants(s, Norm(needle), clocks[i]);
      }
    }
  }

  lemma StepStaysTidy(s: Store, e: Event, s': Store)
    requires Step(s, e, s') && Tidy(s) && (e.Sweep? ==> GoodSweep(e.devs))
    ensures Tidy(s')
  {
    match e {
      case Sweep(devs, now) => ReconciledIsNormal(s, devs, now, s');
      case Forget(needle) => ForgettingKeepsInvariants(s, Norm(needle), 0);
    }
  }

  lemma {:induction false} RunsStayTidy(stores: seq<Store>, events: seq<Event>, i: nat)
    requires IsGoodRun(stores, events) && Tidy(stores[0]) && i < |stores|
    ensures Tidy(stores[i])
  {
    if i > 0 {
      RunsStayTidy(stores, events, i - 1);
      assert StepAt(stores, events, i - 1);
      StepStaysTidy(stores[i - 1], events[i - 1], stores[i]);
    }
  }

  /** The event neither forgets the MAC `a` nor can take its record over. */
  ghost predicate Spares(s: Store, e: Event, a: string) {
    match e
    case Sweep(devs, _) => !CanLose(s, devs, |devs|, a)
    case Forget(needle) => forall k :: HoldsMac(s, k, a) ==> !Answers(k, s[k], Norm(needle))
  }

  /** Every event from `i` up to `j` spares the MAC `a`. */
  ghost predicate Remembered(stores: seq<Store>, events: seq<Event>, i: nat, j: nat, a: string)
    requires IsRun(stores, events) && i <= j < |stores|
  {
    forall e :: i <= e < j ==> Spares(stores[e], events[e], a)
  }

  lemma StepRetains(s: Store, e: Event, s': Store, clock: Time, h: string, a: string)
    requires Step(s, e, s') && Tidy(s) && AllTimely(s, clock) && HoldsMac(s, h, a) && Spares(s, e, a)
    requires e.Sweep? ==> clock <= e.now && GoodSweep(e.devs)
    ensures KeptAs(s[h], s', a)
  {
    match e {
      case Sweep(devs, now) =>
        assert AllTimely(s, now);
        SweepRetains(s, devs, now, s', h, a);
      case Forget(needle) =>
        assert HoldsMac(s', h, a) && s'[h] == s[h] && Retains(s[h], s[h]);
    }
  }

  /**
   Over any run of good sweeps and forget commands, a MAC known at `i` that is neither forgotten nor can be taken
   over is known at every later `j`, whatever happens to other MACs. Its record then retains everything it knew:
   first_seen never grows, the status never returns to archive, a specific name or kind never becomes generic.
   */
  lemma {:induction false} RunsRetain(
    stores: seq<Store>, events: seq<Event>, clocks: seq<Time>, i: nat, j: nat, k: string, a: string)
    requires IsGoodRun(stores, events) && IsClock(clocks, events)
    requires Tidy(stores[0]) && AllTimely(stores[0], clocks[0])
    requires i <= j < |stores| && HoldsMac(stores[i], k, a) && Remembered(stores, events, i, j, a)
    ensures KeptAs(stores[i][k], stores[j], a)
    decreases j
  {
    if i == j {
      assert Retains(stores[i][k], stores[j][k]);
    } else {
      RunsRetain(stores, events, clocks, i, j - 1, k, a);
      RunStepRetains(stores, events, clocks, j - 1, stores[i][k], a);
    }
  }

  lemma RunStepRetains(
    stores: seq<Store>, events: seq<Event>, clocks: seq<Time>, i: nat, r: Record, a: string)
    requires IsGoodRun(stores, events) && IsClock(clocks, events)
    requires Tidy(stores[0]) && AllTimely(stores[0], clocks[0])
    requires i < |events| && KeptAs(r, stores[i], a) && Spares(stores[i], events[i], a)
    ensures KeptAs(r, stores[i + 1], a)
  {
    var h :| HoldsMac(stores[i], h, a) && Retains(r, stores[i][h]);
    RunsStayTidy(stores, events, i);
    RunsStayTimely(stores, events, clocks, i);
    assert StepAt(stores, events, i) && ClockAt(clocks, events, i);
    StepRetains(stores[i], events[i], stores[i + 1], clocks[i], h, a);
    KeptFurther(r, stores[i][h], stores[i + 1], a);
  }
}
