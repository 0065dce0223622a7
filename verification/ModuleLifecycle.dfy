/** Which modules the registry holds after any run of calls, and what it says of them, told from the calls alone. */
module ModuleLifecycle {
  import opened Options
  import opened ControlRegistry

  /** A registration that is complete, consistent and for a known module. */
  predicate Registers(c: Call, id: string) {
    && c.Register? && c.manifest.Some? && c.initialHealth.Some?
    && c.manifest.value.id == id && c.initialHealth.value.moduleId == id && id in KNOWN_MODULE_IDS
  }

  predicate Reports(c: Call, id: string) { c.Report? && c.health.moduleId == id }

  predicate Disconnects(c: Call, id: string) { c.Disconnect? && c.moduleId == id }

  /** Call `i` is the first that registers the module. */
  ghost predicate FirstRegisters(calls: seq<Call>, id: string, i: nat) {
    i < |calls| && Registers(calls[i], id) && forall j :: 0 <= j < i ==> !Registers(calls[j], id)
  }

  /** Since call `i` every disconnect was followed by a report. */
  ghost predicate Answered(calls: seq<Call>, id: string, i: nat) {
    forall d :: i < d < |calls| && Disconnects(calls[d], id) ==> exists r :: d < r < |calls| && Reports(calls[r], id)
  }

  /** The module's health as call `r` told it, if that is the registration or a report. */
  function Told(c: Call): Option<Health> {
    match c
    case Register(_, health) => health
    case Report(health) => Some(health)
    case _ => None
  }

  /** Call `r` told the health last: the registration `i` or a report after it. */
  ghost predicate LastTells(calls: seq<Call>, id: string, i: nat, r: nat) {
    && i <= r < |calls| && (r > i ==> Reports(calls[r], id))
    && forall l :: r < l < |calls| ==> !Reports(calls[l], id)
  }

  /** Call `d` disconnected the module last since call `r`. */
  ghost predicate LastDisconnects(calls: seq<Call>, id: string, r: nat, d: nat) {
    r < d < |calls| && Disconnects(calls[d], id) && forall l :: d < l < |calls| ==> !Disconnects(calls[l], id)
  }

  /** The manifest of the first registration, the health told last, with message and time of a disconnect since. */
  ghost predicate Describes(m: ModuleRuntime, calls: seq<Call>, id: string, i: nat)
    requires i < |calls| && calls[i].Register?
  {
    && m.manifest == calls[i].manifest
    && (m.connected <==> Answered(calls, id, i))
    && exists r :: LastTells(calls, id, i, r) && HealthSince(m.health, calls, id, r)
  }

  ghost predicate HealthSince(health: Option<Health>, calls: seq<Call>, id: string, r: nat)
    requires r < |calls|
  {
    var told := Told(calls[r]);
    && told.Some? && health.Some?
    && if exists d: nat :: LastDisconnects(calls, id, r, d) then
         exists d: nat :: LastDisconnects(calls, id, r, d)
           && health.value == Health(told.value.moduleId, told.value.state, calls[d].message, calls[d].now)
       else health == told
  }

  // ---- One more call

  lemma FirstRegistersNext(calls: seq<Call>, c: Call, id: string, i: nat)
    ensures FirstRegisters(calls + [c], id, i) <==>
      FirstRegisters(calls, id, i) || (i == |calls| && Registers(c, id) && forall j: nat :: !FirstRegisters(calls, id, j))
  {
    var all := calls + [c];
    assert forall j :: 0 <= j < |calls| ==> all[j] == calls[j];
    if j :| 0 <= j < |calls| && Registers(calls[j], id) {
      var k := FirstRegistration(calls, id, j);
    }
  }

  lemma FirstRegistration(calls: seq<Call>, id: string, j: nat) returns (i: nat)
    requires j < |calls| && Registers(calls[j], id)
    ensures FirstRegisters(calls, id, i)
  {
    i := 0;
    while !Registers(calls[i], id)
      invariant i <= j && forall l :: 0 <= l < i ==> !Registers(calls[l], id)
      decreases j - i
    {
      i := i + 1;
    }
  }

  lemma AnsweredNext(calls: seq<Call>, c: Call, id: string, i: nat)
    requires i < |calls|
    ensures Answered(calls + [c], id, i) <==> Reports(c, id) || (Answered(calls, id, i) && !Disconnects(c, id))
  {
    var all, n := calls + [c], |calls|;
    assert forall j :: 0 <= j < n ==> all[j] == calls[j];
    assert all[n] == c;
    if Answered(calls, id, i) && !Disconnects(c, id) {
      forall d | i < d < |all| && Disconnects(all[d], id) ensures exists r :: d < r < |all| && Reports(all[r], id) {
        var r :| d < r < n && Reports(calls[r], id);
        assert Reports(all[r], id);
      }
    }
    if Answered(all, id, i) && !Reports(c, id) {
      forall d | i < d < n && Disconnects(calls[d], id) ensures exists r :: d < r < n && Reports(calls[r], id) {
        assert Disconnects(all[d], id);
      }
    }
  }

  lemma HealthNext(calls: seq<Call>, c: Call, id: string, i: nat, r: nat, health: Option<Health>) returns (r': nat)
    requires LastTells(calls, id, i, r) && HealthSince(health, calls, id, r)
    ensures LastTells(calls + [c], id, i, r')
    ensures HealthSince(
      if Reports(c, id) then Some(c.health)
      else if Disconnects(c, id) then Some(health.value.(message := c.message, updatedAt := c.now))
      else health, calls + [c], id, r')
  {
    var all, n := calls + [c], |calls|;
    assert forall j :: 0 <= j < n ==> all[j] == calls[j];
    if Reports(c, id) {
      r' := n;
      assert !exists d: nat :: LastDisconnects(all, id, r', d);
    } else {
      r' := r;
      if Disconnects(c, id) {
        assert LastDisconnects(all, id, r, n);
      } else {
        assert forall d: nat :: LastDisconnects(all, id, r, d) <==> LastDisconnects(calls, id, r, d);
      }
    }
  }

  lemma DescribesNext(calls: seq<Call>, c: Call, id: string, i: nat, s: State)
    requires FirstRegisters(calls, id, i) && id in s.modules && Describes(s.modules[id], calls, id, i)
    ensures id in Applied(s, c).0.modules && Describes(Applied(s, c).0.modules[id], calls + [c], id, i)
  {
    AnsweredNext(calls, c, id, i);
    var r :| LastTells(calls, id, i, r) && HealthSince(s.modules[id].health, calls, id, r);
    var r' := HealthNext(calls, c, id, i, r, s.modules[id].health);
  }

  lemma RegistrationDescribes(calls: seq<Call>, c: Call, id: string, s: State)
    requires Registers(c, id) && id !in s.modules
    ensures id in Applied(s, c).0.modules && Describes(Applied(s, c).0.modules[id], calls + [c], id, |calls|)
  {
    assert LastTells(calls + [c], id, |calls|, |calls|);
    assert !exists d: nat :: LastDisconnects(calls + [c], id, |calls|, d);
  }

  /**
   After any run a module is held if and only if some call registered it, completely and as a known module. It has the
   manifest of the first such call, counts as connected unless it has not reported since it was disconnected, and its
   health is the one told last, with message and time of the last disconnect since.
   */
  lemma {:induction false} HeldExactly(calls: seq<Call>, id: string)
    ensures id in Run(EMPTY, calls).modules <==> exists i: nat :: FirstRegisters(calls, id, i)
    ensures forall i: nat :: FirstRegisters(calls, id, i) ==> Describes(Run(EMPTY, calls).modules[id], calls, id, i)
  {
    if calls != [] {
      var init, c := calls[..|calls| - 1], calls[|calls| - 1];
      assert calls == init + [c];
      HeldExactly(init, id);
      var s := Run(EMPTY, init);
      forall i: nat { FirstRegistersNext(init, c, id, i); }
      if i: nat :| FirstRegisters(init, id, i) {
        DescribesNext(init, c, id, i, s);
        assert FirstRegisters(calls, id, i);
      } else if Registers(c, id) {
        RegistrationDescribes(init, c, id, s);
        assert FirstRegisters(calls, id, |init|);
      }
    }
  }

  // ---- Verdicts

  /** The verdict on a registration is told from its parts and from the calls before. */
  lemma RegisterVerdict(calls: seq<Call>, manifest: Option<Manifest>, health: Option<Health>)
    ensures Applied(Run(EMPTY, calls), Register(manifest, health)).1 ==
      if manifest == None then InvalidArgument("missing manifest")
      else if health == None then InvalidArgument("missing initial health")
      else if manifest.value.id != health.value.moduleId then
        InvalidArgument("manifest.id and initial_health.module_id must match")
      else if manifest.value.id !in KNOWN_MODULE_IDS then InvalidArgument("unknown module id")
      else if exists i: nat :: FirstRegisters(calls, manifest.value.id, i) then AlreadyExists
      else Ok
  {
    if manifest.Some? {
      HeldExactly(calls, manifest.value.id);
    }
  }

  /** Reports and upserts of modules that never registered are not found; all reports of others are accepted. */
  lemma OthersAreNotFound(calls: seq<Call>, health: Health, request: Upsert)
    ensures Applied(Run(EMPTY, calls), Report(health)).1 ==
      if exists i: nat :: FirstRegisters(calls, health.moduleId, i) then Ok else NotFound
    ensures Applied(Run(EMPTY, calls), Replace(request)).1 == NotFound <==>
      forall i: nat :: !FirstRegisters(calls, request.moduleId, i)
  {
    HeldExactly(calls, health.moduleId);
    HeldExactly(calls, request.moduleId);
  }
}
