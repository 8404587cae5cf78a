/** The fail-closed tenant serving gate (sync/tenant_serving_gate.go). */
module ServingGate {
  import opened AuthModel

  /** 30 seconds in nanoseconds; times count from the zero time. */
  const MAX_LEASE: nat := 30_000_000_000

  datatype Restriction = Restriction(
    epoch: int, requestID: string, reason: string, authorityEventID: string, authorityAppendOrdinal: int)

  datatype ServingState = Unspecified | Active | Restricted

  /** A lease expiry, and whether the timestamp is well formed. */
  datatype Lease = Lease(valid: bool, at: nat)

  datatype Update = Update(
    state: ServingState, epoch: int, requestID: string, reason: string,
    authorityEventID: string, authorityAppendOrdinal: int, challenge: string, lease: Option<Lease>)

  datatype GateError = Malformed | Unbound | WrongTenant | IsRestricted(authority: Restriction) | Conflict | Expired

  datatype Gate = Gate(tenantID: string, leaseExpiresAt: nat, restriction: Option<Restriction>)

  const NEW_GATE := Gate("", 0, None)

  predicate ValidReason(reason: string) {
    reason in {"admitted_target_missing", "admitted_source_generation_missing", "admitted_model_revision_missing"}
  }

  /** The restriction an update carries, if it is a well-formed restriction and nothing else. */
  function RestrictionFromUpdate(u: Option<Update>, isUlid: string -> bool): Option<Restriction> {
    if u.None? || u.value.state != Restricted then None
    else if u.value.lease.Some? || u.value.challenge != "" then None
    else if u.value.epoch < 1 || u.value.authorityAppendOrdinal < 1 then None
    else if !isUlid(u.value.requestID) || !isUlid(u.value.authorityEventID) then None
    else if !ValidReason(u.value.reason) then None
    else Some(Restriction(u.value.epoch, u.value.requestID, u.value.reason,
                          u.value.authorityEventID, u.value.authorityAppendOrdinal))
  }

  function TenantError(g: Gate, tenantID: string): Option<GateError> {
    if g.tenantID == "" then Some(Unbound)
    else if tenantID != "" && tenantID != g.tenantID then Some(WrongTenant)
    else None
  }

  /** What a renewal must be before the gate's own state is consulted. */
  predicate GoodRenewal(u: Option<Update>, challenge: string, now: nat) {
    && u.Some? && u.value.state == Active
    && u.value.epoch == 0 && u.value.requestID == "" && u.value.reason == ""
    && u.value.authorityEventID == "" && u.value.authorityAppendOrdinal == 0
    && challenge != "" && u.value.challenge == challenge
    && u.value.lease.Some? && u.value.lease.value.valid
    && now < u.value.lease.value.at <= now + MAX_LEASE
  }

  // ---- calls as steps ----

  datatype Call =
    | BindTenant(tenantID: string)
    | Renew(tenantID: string, challenge: string, update: Option<Update>, now: nat)
    | Restrict(tenantID: string, update: Option<Update>)

  datatype Outcome = Outcome(gate: Gate, error: Option<GateError>)

  function Perform(g: Gate, c: Call, isUlid: string -> bool): Outcome {
    match c
    case BindTenant(tenantID) =>
      if tenantID == "" then Outcome(g, Some(Malformed))
      else if g.tenantID != "" && g.tenantID != tenantID then Outcome(g, Some(WrongTenant))
      else Outcome(g.(tenantID := tenantID), None)
    case Renew(tenantID, challenge, update, now) =>
      if !GoodRenewal(update, challenge, now) then Outcome(g, Some(Malformed))
      else if TenantError(g, tenantID).Some? then Outcome(g, TenantError(g, tenantID))
      else if g.restriction.Some? then Outcome(g, Some(IsRestricted(g.restriction.value)))
      else Outcome(g.(leaseExpiresAt := update.value.lease.value.at), None)
    case Restrict(tenantID, update) =>
      var r := RestrictionFromUpdate(update, isUlid);
      if r.None? then Outcome(g, Some(Malformed))
      else if TenantError(g, tenantID).Some? then Outcome(g, TenantError(g, tenantID))
      else if g.restriction.Some? && r.value.epoch < g.restriction.value.epoch then Outcome(g, None)
      else if g.restriction.Some? && r.value.epoch == g.restriction.value.epoch then
        Outcome(g, if r == g.restriction then None else Some(Conflict))
      else Outcome(Gate(g.tenantID, 0, r), None)
  }

  function Verdict(g: Gate, tenantID: string, now: nat): Option<GateError> {
    if TenantError(g, tenantID).Some? then TenantError(g, tenantID)
    else if g.restriction.Some? then Some(IsRestricted(g.restriction.value))
    else if now >= g.leaseExpiresAt then Some(Expired)
    else None
  }

  class TenantServingGate {
    var tenantID: string
    var leaseExpiresAt: nat
    var restriction: Option<Restriction>
    const isUlid: string -> bool

    ghost function Abs(): Gate reads this {
      Gate(tenantID, leaseExpiresAt, restriction)
    }

    constructor (isUlid: string -> bool)
      ensures Abs() == NEW_GATE && this.isUlid == isUlid
    {
      tenantID := "";
      leaseExpiresAt := 0;
      restriction := None;
      this.isUlid := isUlid;
    }

    method BindTenant(id: string) returns (err: Option<GateError>)
      modifies this
      ensures Perform(old(Abs()), Call.BindTenant(id), isUlid) == Outcome(Abs(), err)
      ensures err.None? <==> id != "" && (old(tenantID) == "" || old(tenantID) == id)
      ensures Abs() == if err.None? then old(Abs()).(tenantID := id) else old(Abs())
    {
      if id == "" { return Some(Malformed); }
      if tenantID != "" && tenantID != id { return Some(WrongTenant); }
      tenantID := id;
      return None;
    }

    method Renew(id: string, expectedChallenge: string, update: Option<Update>, now: nat)
      returns (err: Option<GateError>)
      modifies this
      ensures Perform(old(Abs()), Call.Renew(id, expectedChallenge, update, now), isUlid) == Outcome(Abs(), err)
      ensures err.None? <==>
        && tenantID != "" && (id == "" || id == tenantID) && restriction.None?
        && update.Some? && update.value.state == Active
        && update.value.epoch == 0 && update.value.requestID == "" && update.value.reason == ""
        && update.value.authorityEventID == "" && update.value.authorityAppendOrdinal == 0
        && expectedChallenge != "" && update.value.challenge == expectedChallenge
        && update.value.lease.Some? && update.value.lease.value.valid
        && now < update.value.lease.value.at <= now + 30_000_000_000
      ensures Abs() == if err.None? then old(Abs()).(leaseExpiresAt := update.value.lease.value.at) else old(Abs())
      ensures err.Some? && err.value.IsRestricted? ==> restriction == Some(err.value.authority)
    {
      if update.None? || update.value.state != Active { return Some(Malformed); }
      var u := update.value;
      if u.epoch != 0 || u.requestID != "" || u.reason != ""
         || u.authorityEventID != "" || u.authorityAppendOrdinal != 0 {
        return Some(Malformed);
      }
      if expectedChallenge == "" || u.challenge != expectedChallenge { return Some(Malformed); }
      if u.lease.None? { return Some(Malformed); }
      if !u.lease.value.valid { return Some(Malformed); }
      var expiresAt := u.lease.value.at;
      if expiresAt <= now || expiresAt > now + MAX_LEASE { return Some(Malformed); }
      var scope := RequireTenantLocked(id);
      if scope.Some? { return scope; }
      if restriction.Some? { return Some(IsRestricted(restriction.value)); }
      leaseExpiresAt := expiresAt;
      return None;
    }

    method Restrict(id: string, update: Option<Update>) returns (err: Option<GateError>)
      modifies this
      ensures Perform(old(Abs()), Call.Restrict(id, update), isUlid) == Outcome(Abs(), err)
      ensures err != Some(Malformed) <==>
        && update.Some? && update.value.state == Restricted && update.value.lease.None? && update.value.challenge == ""
        && update.value.epoch >= 1 && update.value.authorityAppendOrdinal >= 1
        && isUlid(update.value.requestID) && isUlid(update.value.authorityEventID)
        && (|| update.value.reason == "admitted_target_missing"
            || update.value.reason == "admitted_source_generation_missing"
            || update.value.reason == "admitted_model_revision_missing")
      ensures Abs() != old(Abs()) ==>
        && err.None? && tenantID == old(tenantID) && leaseExpiresAt == 0
        && restriction.Some? && restriction.value.epoch == update.value.epoch
        && restriction.value.requestID == update.value.requestID && restriction.value.reason == update.value.reason
        && restriction.value.authorityEventID == update.value.authorityEventID
        && restriction.value.authorityAppendOrdinal == update.value.authorityAppendOrdinal
      ensures err.None? ==>
        && tenantID != "" && (id == "" || id == tenantID)
        && restriction.Some? && update.value.epoch <= restriction.value.epoch
      ensures err == Some(Conflict) ==> old(restriction).Some? && update.value.epoch == old(restriction).value.epoch
    {
      var incoming := RestrictionFromUpdate(update, isUlid);
      if incoming.None? { return Some(Malformed); }
      var scope := RequireTenantLocked(id);
      if scope.Some? { return scope; }
      if restriction.Some? {
        if incoming.value.epoch < restriction.value.epoch { return None; }
        if incoming.value.epoch == restriction.value.epoch {
          if incoming == restriction { return None; }
          return Some(Conflict);
        }
      }
      restriction := incoming;
      leaseExpiresAt := 0;
      return None;
    }

    method RequireActive(id: string, now: nat) returns (err: Option<GateError>)
      ensures err == Verdict(Abs(), id, now)
      ensures err.None? <==>
        tenantID != "" && (id == "" || id == tenantID) && restriction.None? && now < leaseExpiresAt
      ensures tenantID != "" && (id == "" || id == tenantID) && err.Some? ==>
        err.value == if restriction.Some? then IsRestricted(restriction.value) else Expired
    {
      var scope := RequireTenantLocked(id);
      if scope.Some? { return scope; }
      if restriction.Some? { return Some(IsRestricted(restriction.value)); }
      if now >= leaseExpiresAt { return Some(Expired); }
      return None;
    }

    method RequireTenantLocked(id: string) returns (err: Option<GateError>)
      ensures err == TenantError(Abs(), id)
      ensures err == Some(Unbound) <==> tenantID == ""
      ensures err == Some(WrongTenant) <==> tenantID != "" && id != "" && id != tenantID
      ensures err.None? <==> tenantID != "" && (id == "" || id == tenantID)
    {
      if tenantID == "" { return Some(Unbound); }
      if id != "" && id != tenantID { return Some(WrongTenant); }
      return None;
    }
  }

  // ---- every run of the gate ----

  /** One call: the tenant is bound once, a restriction only gives way to a later epoch. */
  lemma OneCall(g: Gate, c: Call, isUlid: string -> bool)
    ensures
      var r := Perform(g, c, isUlid);
      && (r.gate.tenantID == g.tenantID
          || (g.tenantID == "" && c == BindTenant(r.gate.tenantID) && r.gate.tenantID != ""))
      && (r.gate.restriction.None? <==> g.restriction.None? && !(c.Restrict? && r.error.None?))
      && (g.restriction.Some? ==>
            r.gate.restriction == g.restriction || g.restriction.value.epoch < r.gate.restriction.value.epoch)
  {
    hide RestrictionFromUpdate, GoodRenewal;
  }

  function After(calls: seq<Call>, isUlid: string -> bool): Gate {
    if calls == [] then NEW_GATE
    else Perform(After(calls[..|calls| - 1], isUlid), calls[|calls| - 1], isUlid).gate
  }

  /** Call i of the run was accepted. */
  predicate Accepted(calls: seq<Call>, i: nat, isUlid: string -> bool)
    requires i < |calls|
  {
    Perform(After(calls[..i], isUlid), calls[i], isUlid).error.None?
  }

  ghost predicate NeverRestricted(calls: seq<Call>, isUlid: string -> bool) {
    forall i: nat | i < |calls| && calls[i].Restrict? :: !Accepted(calls, i, isUlid)
  }

  /** Call i is the latest accepted renewal. */
  ghost predicate LatestRenewal(calls: seq<Call>, i: nat, isUlid: string -> bool) {
    && i < |calls| && calls[i].Renew? && Accepted(calls, i, isUlid)
    && forall j: nat | i < j < |calls| && calls[j].Renew? :: !Accepted(calls, j, isUlid)
  }

  ghost predicate EverBound(calls: seq<Call>, tenantID: string) {
    tenantID != "" && BindTenant(tenantID) in calls
  }

  function ExpiryOf(c: Call): nat {
    if c.Renew? && c.update.Some? && c.update.value.lease.Some? then c.update.value.lease.value.at else 0
  }

  /** The lease field is the latest accepted renewal's expiry, until a restriction clears it for good. */
  ghost predicate LeaseExplained(calls: seq<Call>, g: Gate, isUlid: string -> bool) {
    && (g.restriction.Some? ==> g.leaseExpiresAt == 0)
    && (g.leaseExpiresAt != 0 ==> exists i: nat :: LatestRenewal(calls, i, isUlid))
    && (g.restriction.None? ==>
          forall i: nat | LatestRenewal(calls, i, isUlid) :: ExpiryOf(calls[i]) == g.leaseExpiresAt)
  }

  /** What the gate's fields say about the calls it has seen. */
  ghost predicate Explained(calls: seq<Call>, isUlid: string -> bool) {
    var g := After(calls, isUlid);
    && (g.tenantID != "" ==> EverBound(calls, g.tenantID))
    && (g.restriction.None? <==> NeverRestricted(calls, isUlid))
    && LeaseExplained(calls, g, isUlid)
  }

  lemma PrefixAccepted(calls: seq<Call>, c: Call, i: nat, isUlid: string -> bool)
    requires i < |calls|
    ensures Accepted(calls + [c], i, isUlid) == Accepted(calls, i, isUlid)
  {
    assert (calls + [c])[..i] == calls[..i];
  }

  lemma OneMoreCall(calls: seq<Call>, c: Call, isUlid: string -> bool)
    ensures After(calls + [c], isUlid) == Perform(After(calls, isUlid), c, isUlid).gate
    ensures Accepted(calls + [c], |calls|, isUlid) <==> Perform(After(calls, isUlid), c, isUlid).error.None?
    ensures forall i: nat | i < |calls| :: Accepted(calls + [c], i, isUlid) == Accepted(calls, i, isUlid)
  {
    assert (calls + [c])[..|calls|] == calls;
    forall i: nat | i < |calls| ensures Accepted(calls + [c], i, isUlid) == Accepted(calls, i, isUlid) {
      PrefixAccepted(calls, c, i, isUlid);
    }
  }

  lemma StillNeverRestricted(calls: seq<Call>, c: Call, isUlid: string -> bool)
    ensures NeverRestricted(calls + [c], isUlid) <==>
      NeverRestricted(calls, isUlid) && !(c.Restrict? && Perform(After(calls, isUlid), c, isUlid).error.None?)
  {
    hide Perform, After, Accepted;
    OneMoreCall(calls, c, isUlid);
    var all := calls + [c];
    assert forall i: nat | i < |calls| :: all[i] == calls[i];
    assert all[|calls|] == c;
    if NeverRestricted(all, isUlid) {
      forall i: nat | i < |calls| && calls[i].Restrict? ensures !Accepted(calls, i, isUlid) {
        assert !Accepted(all, i, isUlid);
      }
    }
  }

  lemma StillLatest(calls: seq<Call>, c: Call, isUlid: string -> bool)
    requires !(c.Renew? && Perform(After(calls, isUlid), c, isUlid).error.None?)
    ensures forall i: nat :: LatestRenewal(calls + [c], i, isUlid) <==> LatestRenewal(calls, i, isUlid)
  {
    hide Perform, After, Accepted;
    OneMoreCall(calls, c, isUlid);
    var all := calls + [c];
    assert forall i: nat | i < |calls| :: all[i] == calls[i];
    assert all[|calls|] == c;
    forall i: nat ensures LatestRenewal(all, i, isUlid) <==> LatestRenewal(calls, i, isUlid) {
      if LatestRenewal(all, i, isUlid) {
        forall j: nat | i < j < |calls| && calls[j].Renew? ensures !Accepted(calls, j, isUlid) {
          assert !Accepted(all, j, isUlid);
        }
      }
    }
  }

  lemma NowLatest(calls: seq<Call>, c: Call, isUlid: string -> bool)
    requires c.Renew? && Perform(After(calls, isUlid), c, isUlid).error.None?
    ensures forall i: nat :: LatestRenewal(calls + [c], i, isUlid) <==> i == |calls|
  {
    hide Perform, After, Accepted;
    OneMoreCall(calls, c, isUlid);
    assert (calls + [c])[|calls|] == c;
  }

  lemma LeaseStep(calls: seq<Call>, c: Call, isUlid: string -> bool)
    requires LeaseExplained(calls, After(calls, isUlid), isUlid)
    ensures LeaseExplained(calls + [c], After(calls + [c], isUlid), isUlid)
  {
    hide After, Accepted, RestrictionFromUpdate, TenantError;
    OneMoreCall(calls, c, isUlid);
    var g, all := After(calls, isUlid), calls + [c];
    if c.Renew? && Perform(g, c, isUlid).error.None? {
      NowLatest(calls, c, isUlid);
      hide LatestRenewal;
      assert all[|calls|] == c && LatestRenewal(all, |calls|, isUlid);
    } else {
      StillLatest(calls, c, isUlid);
      assert forall i: nat | LatestRenewal(calls, i, isUlid) :: i < |calls| && all[i] == calls[i];
      hide LatestRenewal;
      if i: nat :| LatestRenewal(calls, i, isUlid) { assert LatestRenewal(all, i, isUlid); }
    }
  }

  lemma {:induction false} EveryRunIsExplained(calls: seq<Call>, isUlid: string -> bool)
    ensures Explained(calls, isUlid)
  {
    if calls != [] {
      var front, c := calls[..|calls| - 1], calls[|calls| - 1];
      assert calls == front + [c];
      EveryRunIsExplained(front, isUlid);
      hide Accepted, LatestRenewal, NeverRestricted, LeaseExplained, After, Perform;
      OneMoreCall(front, c, isUlid);
      OneCall(After(front, isUlid), c, isUlid);
      StillNeverRestricted(front, c, isUlid);
      LeaseStep(front, c, isUlid);
      assert c in calls && forall x <- front :: x in calls;
    }
  }

  lemma RenewalsAreRenewals(calls: seq<Call>, isUlid: string -> bool)
    ensures forall i: nat | LatestRenewal(calls, i, isUlid) ::
      i < |calls| && calls[i].Renew? && GoodRenewal(calls[i].update, calls[i].challenge, calls[i].now)
  {
  }

  /**
   * After any calls, a decision at time now is served exactly when the gate is bound to the tenant, no restriction
   * was ever accepted, and the latest accepted renewal has not expired; and that renewal answered its own challenge
   * and reached at most 30 seconds past the time it was accepted.
   */
  lemma ServedExactlyUnderLease(calls: seq<Call>, isUlid: string -> bool, tenantID: string, now: nat)
    ensures
      var g := After(calls, isUlid);
      Verdict(g, tenantID, now).None? <==>
        && g.tenantID != "" && (tenantID == "" || tenantID == g.tenantID)
        && NeverRestricted(calls, isUlid)
        && exists i: nat :: LatestRenewal(calls, i, isUlid) && now < ExpiryOf(calls[i])
    ensures forall i: nat | LatestRenewal(calls, i, isUlid) ::
      && calls[i].update.Some? && calls[i].challenge != "" && calls[i].update.value.challenge == calls[i].challenge
      && calls[i].now < ExpiryOf(calls[i]) <= calls[i].now + MAX_LEASE
    ensures After(calls, isUlid).tenantID != "" ==> EverBound(calls, After(calls, isUlid).tenantID)
  {
    EveryRunIsExplained(calls, isUlid);
    RenewalsAreRenewals(calls, isUlid);
    hide After, Accepted, LatestRenewal, NeverRestricted;
  }

  /** Bindings are write-once, a restriction is never lifted or rolled back, and one epoch has one authority. */
  lemma {:induction false} GateOnlyTightens(calls: seq<Call>, i: nat, j: nat, isUlid: string -> bool)
    requires i <= j <= |calls|
    ensures
      var before, after := After(calls[..i], isUlid), After(calls[..j], isUlid);
      && (before.tenantID != "" ==> after.tenantID == before.tenantID)
      && (before.restriction.Some? ==>
            && after.restriction.Some?
            && before.restriction.value.epoch <= after.restriction.value.epoch
            && (before.restriction.value.epoch == after.restriction.value.epoch ==>
                  after.restriction == before.restriction))
    decreases j - i
  {
    hide After, Perform, Accepted;
    if i < j {
      GateOnlyTightens(calls, i, j - 1, isUlid);
      assert calls[..j] == calls[..j - 1] + [calls[j - 1]];
      OneMoreCall(calls[..j - 1], calls[j - 1], isUlid);
      OneCall(After(calls[..j - 1], isUlid), calls[j - 1], isUlid);
    }
  }
}
