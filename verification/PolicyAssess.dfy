/** Assessing one copy: topology, verification and freshness, against the clock.

    What is examined, and in which order, is a `Plan`; the assessor runs it, and everything
    about how verdicts age is proved for plans in general. */
module PolicyAssess {
  import opened Wrappers

  const DAY_MS: nat := 86_400_000
  const U64_MAX: nat := 0xFFFF_FFFF_FFFF_FFFF

  datatype PolicyError = InvalidRequirements | InvalidState

  datatype PolicyRequirements = PolicyRequirements(
    minQualifyingCopies: nat, minDevices: nat, minSites: nat,
    requireOffsiteCopy: bool, requireOfflineCopy: bool, requireEncryptedOffsite: bool,
    maxVerificationAgeDays: nat, maxObservationAgeDays: nat, maxDeviceCheckinAgeDays: nat)
  {
    /** What `from_json` accepts. */
    predicate Valid() {
      && minQualifyingCopies > 0 && minDevices > 0 && minSites > 0
      && maxVerificationAgeDays > 0 && maxObservationAgeDays > 0 && maxDeviceCheckinAgeDays > 0
      && maxVerificationAgeDays * DAY_MS <= U64_MAX && maxObservationAgeDays * DAY_MS <= U64_MAX
      && maxDeviceCheckinAgeDays * DAY_MS <= U64_MAX
    }
  }

  datatype CopyFact = CopyFact(
    copyClaimId: string, state: string, objectId: Option<string>,
    lastSeenMs: Option<nat>, lastVerifiedMs: Option<nat>, lastVerificationResult: Option<string>,
    locationId: string, locationKind: string, locationStatus: string,
    archiveRootId: Option<string>, archiveRootStatus: Option<string>, archiveRootDeviceId: Option<string>,
    deviceId: Option<string>, deviceStatus: Option<string>, deviceIdentityState: Option<string>,
    deviceExpectedAvailability: Option<string>, lastCheckinMs: Option<nat>, lastFingerprintMatchMs: Option<nat>,
    lastFingerprintStatus: Option<string>, siteId: Option<string>, siteStatus: Option<string>,
    encryptionState: Option<string>, trustLevel: Option<string>, locationExpectedAvailability: string)

  datatype FileFact = FileFact(
    fileRefId: string, objectId: Option<string>, identityState: string, sizeBytes: Option<nat>,
    hashAlgo: Option<string>, policyId: string, homeSiteId: string, copies: seq<CopyFact>)

  /** A reason a copy does not qualify; an uncertain one may still be cured by new information. */
  datatype Finding = Finding(reason: string, uncertain: bool)

  datatype Check = Check(timestamp: Option<nat>, maxAgeDays: nat, name: string)

  /** One thing an assessment looks at. */
  datatype Item = Static(findings: seq<Finding>) | Timed(check: Check)

  datatype Seen = Seen(findings: seq<Finding>, validUntil: Option<nat>)

  function MinTime(a: Option<nat>, b: Option<nat>): Option<nat> {
    if a.Some? && b.Some? then Some(if a.value <= b.value then a.value else b.value)
    else if a.Some? then a else b
  }

  datatype Freshness = Overflow | Stale(reason: string) | Fresh(expiry: nat)

  function FreshnessAt(c: Check, now: nat): Freshness {
    if c.timestamp.None? then Stale(c.name + "_time_missing")
    else if c.timestamp.value > now then Stale(c.name + "_time_in_future")
    else if c.maxAgeDays * DAY_MS > U64_MAX || c.timestamp.value + c.maxAgeDays * DAY_MS > U64_MAX then Overflow
    else
      var expiry := c.timestamp.value + c.maxAgeDays * DAY_MS;
      if expiry <= now then Stale(c.name + "_stale") else Fresh(expiry)
  }

  function SeenItem(item: Item, seen: Seen, now: nat): Result<Seen, PolicyError> {
    match item
    case Static(findings) => Ok(Seen(seen.findings + findings, seen.validUntil))
    case Timed(c) =>
      match FreshnessAt(c, now)
      case Overflow => Err(InvalidState)
      case Stale(reason) => Ok(Seen(seen.findings + [Finding(reason, true)], seen.validUntil))
      case Fresh(expiry) => Ok(Seen(seen.findings, MinTime(seen.validUntil, Some(expiry))))
  }

  function RunPlan(plan: seq<Item>, now: nat): Result<Seen, PolicyError> {
    if |plan| == 0 then Ok(Seen([], None))
    else
      var before := RunPlan(plan[..|plan| - 1], now);
      if before.Err? then before else SeenItem(plan[|plan| - 1], before.value, now)
  }

  predicate AnyUncertain(findings: seq<Finding>) { exists i :: 0 <= i < |findings| && findings[i].uncertain }

  /** No timestamp the plan looks at lies after `now`. */
  predicate NoFuture(plan: seq<Item>, now: nat) {
    forall i :: 0 <= i < |plan| && plan[i].Timed? && plan[i].check.timestamp.Some? ==> plan[i].check.timestamp.value <= now
  }

  predicate NoOverflow(plan: seq<Item>) {
    forall i :: 0 <= i < |plan| && plan[i].Timed? && plan[i].check.timestamp.Some? ==>
      && plan[i].check.maxAgeDays * DAY_MS <= U64_MAX
      && plan[i].check.timestamp.value + plan[i].check.maxAgeDays * DAY_MS <= U64_MAX
  }

  predicate Before(t: nat, validUntil: Option<nat>) { validUntil.Some? ==> t < validUntil.value }

  /** A plan without future timestamps gives the same answer until the first expiry it found. */
  lemma {:induction false} PlanStable(plan: seq<Item>, t0: nat, t: nat)
    requires t0 <= t && RunPlan(plan, t0).Ok? && Before(t, RunPlan(plan, t0).value.validUntil) && NoFuture(plan, t0)
    ensures RunPlan(plan, t) == RunPlan(plan, t0)
  {
    if |plan| > 0 {
      var init, last := plan[..|plan| - 1], plan[|plan| - 1];
      forall i | 0 <= i < |init| ensures init[i] == plan[i] {}
      PlanStable(init, t0, t);
      if last.Timed? {
        assert last == plan[|plan| - 1];
        assert FreshnessAt(last.check, t) == FreshnessAt(last.check, t0);
      }
    }
  }

  /** A future timestamp always leaves an uncertain finding. */
  lemma {:induction false} FutureUncertain(plan: seq<Item>, now: nat)
    requires RunPlan(plan, now).Ok? && !NoFuture(plan, now)
    ensures AnyUncertain(RunPlan(plan, now).value.findings)
  {
    var init, last := plan[..|plan| - 1], plan[|plan| - 1];
    var before, all := RunPlan(init, now).value.findings, RunPlan(plan, now).value.findings;
    if NoFuture(init, now) {
      forall i | 0 <= i < |init| ensures init[i] == plan[i] {}
      assert last.Timed? && last.check.timestamp.Some? && last.check.timestamp.value > now;
      assert all[|all| - 1].uncertain;
    } else {
      FutureUncertain(init, now);
      var i :| 0 <= i < |before| && before[i].uncertain;
      assert all[i] == before[i];
    }
  }

  lemma {:induction false} PlanSucceeds(plan: seq<Item>, now: nat)
    requires NoOverflow(plan)
    ensures RunPlan(plan, now).Ok?
  {
    if |plan| > 0 {
      var init, last := plan[..|plan| - 1], plan[|plan| - 1];
      forall i | 0 <= i < |init| ensures init[i] == plan[i] {}
      PlanSucceeds(init, now);
      assert last == plan[|plan| - 1];
    }
  }

  // ----- what time does to each item -----

  predicate UncertainItem(item: Item, now: nat) {
    match item
    case Static(findings) => AnyUncertain(findings)
    case Timed(c) => FreshnessAt(c, now).Stale?
  }

  predicate QuietItem(item: Item, now: nat) {
    match item
    case Static(findings) => |findings| == 0
    case Timed(c) => FreshnessAt(c, now).Fresh?
  }

  /** A timestamp that lies ahead at `t0` has come by `t` and has not expired yet. */
  predicate Clears(item: Item, t0: nat, t: nat) {
    item.Timed? && item.check.timestamp.Some?
    && t0 < item.check.timestamp.value <= t < item.check.timestamp.value + item.check.maxAgeDays * DAY_MS
  }

  predicate Expires(item: Item, now: nat, validUntil: Option<nat>) {
    item.Timed? ==> !FreshnessAt(item.check, now).Overflow?
                    && (FreshnessAt(item.check, now).Fresh? ==> validUntil.Some? && validUntil.value <= FreshnessAt(item.check, now).expiry)
  }

  /** The findings of a plan, item by item. */
  lemma {:induction false} PlanItems(plan: seq<Item>, now: nat)
    requires RunPlan(plan, now).Ok?
    ensures AnyUncertain(RunPlan(plan, now).value.findings) <==> exists i :: 0 <= i < |plan| && UncertainItem(plan[i], now)
    ensures |RunPlan(plan, now).value.findings| == 0 <==> forall i :: 0 <= i < |plan| ==> QuietItem(plan[i], now)
    ensures forall i :: 0 <= i < |plan| ==> Expires(plan[i], now, RunPlan(plan, now).value.validUntil)
  {
    hide UncertainItem, QuietItem, AnyUncertain, SeenItem, Expires;
    if |plan| == 0 {
      NothingUncertain();
    } else {
      var init, last := plan[..|plan| - 1], plan[|plan| - 1];
      PlanItems(init, now);
      LastItem(RunPlan(init, now).value, last, now);
      forall i | 0 <= i < |plan| ensures Expires(plan[i], now, RunPlan(plan, now).value.validUntil) {
        if i < |init| {
          assert init[i] == plan[i];
          ExpiresEarlier(plan[i], RunPlan(init, now).value, last, now);
        }
      }
      assert forall i :: 0 <= i < |init| ==> init[i] == plan[i];
      assert last == plan[|plan| - 1];
    }
  }

  lemma NothingUncertain()
    ensures !AnyUncertain([])
  {
  }

  lemma LastItem(seen: Seen, item: Item, now: nat)
    requires SeenItem(item, seen, now).Ok?
    ensures var after := SeenItem(item, seen, now).value;
            && (AnyUncertain(after.findings) <==> AnyUncertain(seen.findings) || UncertainItem(item, now))
            && (|after.findings| == 0 <==> |seen.findings| == 0 && QuietItem(item, now))
            && Expires(item, now, after.validUntil)
  {
    hide AnyUncertain, FreshnessAt;
    match item
    case Static(findings) => UncertainAppend(seen.findings, findings);
    case Timed(c) =>
      if FreshnessAt(c, now).Stale? {
        UncertainAppend(seen.findings, [Finding(FreshnessAt(c, now).reason, true)]);
        OneUncertain(FreshnessAt(c, now).reason);
      }
  }

  lemma UncertainAppend(a: seq<Finding>, b: seq<Finding>)
    ensures AnyUncertain(a + b) <==> AnyUncertain(a) || AnyUncertain(b)
  {
    forall i | 0 <= i < |b| ensures (a + b)[|a| + i] == b[i] {}
    if i :| 0 <= i < |a| && a[i].uncertain { assert (a + b)[i].uncertain; }
    if i :| 0 <= i < |b| && b[i].uncertain { assert (a + b)[|a| + i].uncertain; }
  }

  lemma OneUncertain(reason: string)
    ensures AnyUncertain([Finding(reason, true)])
  {
    assert [Finding(reason, true)][0].uncertain;
  }

  lemma ExpiresEarlier(item: Item, seen: Seen, last: Item, now: nat)
    requires Expires(item, now, seen.validUntil) && SeenItem(last, seen, now).Ok?
    ensures Expires(item, now, SeenItem(last, seen, now).value.validUntil)
  {
    hide FreshnessAt;
  }

  /** Until the first expiry an item changes only by clearing. */
  lemma ItemAges(item: Item, t0: nat, t: nat, validUntil: Option<nat>, later: Option<nat>)
    requires t0 <= t && Expires(item, t0, validUntil) && Before(t, validUntil) && Expires(item, t, later)
    ensures QuietItem(item, t) <==> QuietItem(item, t0) || Clears(item, t0, t)
    ensures UncertainItem(item, t) <==> UncertainItem(item, t0) && !Clears(item, t0, t)
  {
    hide AnyUncertain;
  }

  /** The same for a whole plan. */
  lemma PlanAges(plan: seq<Item>, t0: nat, t: nat)
    requires t0 <= t && RunPlan(plan, t0).Ok? && RunPlan(plan, t).Ok? && Before(t, RunPlan(plan, t0).value.validUntil)
    ensures |RunPlan(plan, t).value.findings| == 0 <==>
            forall i :: 0 <= i < |plan| ==> QuietItem(plan[i], t0) || Clears(plan[i], t0, t)
    ensures AnyUncertain(RunPlan(plan, t).value.findings) <==>
            exists i :: 0 <= i < |plan| && UncertainItem(plan[i], t0) && !Clears(plan[i], t0, t)
  {
    hide RunPlan, AnyUncertain, UncertainItem, QuietItem, Clears, Expires;
    PlanItems(plan, t0);
    PlanItems(plan, t);
    forall i | 0 <= i < |plan|
      ensures QuietItem(plan[i], t) <==> QuietItem(plan[i], t0) || Clears(plan[i], t0, t)
      ensures UncertainItem(plan[i], t) <==> UncertainItem(plan[i], t0) && !Clears(plan[i], t0, t)
    {
      ItemAges(plan[i], t0, t, RunPlan(plan, t0).value.validUntil, RunPlan(plan, t).value.validUntil);
    }
  }

  // ----- the plan of one copy -----

  function Note(found: bool, reason: string, uncertain: bool): seq<Finding> {
    if found then [Finding(reason, uncertain)] else []
  }

  function IdentityFindings(copy: CopyFact, file: FileFact): seq<Finding> {
    Note(copy.objectId != file.objectId, "object_identity_mismatch", false)
    + Note(copy.state != "present", "copy_state_" + copy.state, false)
    + (match copy.lastVerificationResult
       case None => [Finding("verification_missing", true)]
       case Some(result) => Note(result != "ok", "verification_" + result, false))
  }

  /** The site a copy counts for; none when it is unknown or inactive. */
  function SiteOf(copy: CopyFact): string {
    if copy.siteId.Some? && copy.siteStatus == Some("active") then copy.siteId.value else ""
  }

  function PlaceFindings(copy: CopyFact): seq<Finding> {
    Note(copy.locationStatus != "active", "location_inactive", false)
    + Note(copy.trustLevel == Some("untrusted"), "location_untrusted", false)
    + Note(copy.trustLevel != Some("untrusted") && copy.trustLevel != Some("trusted"), "location_trust_unknown", true)
    + Note(copy.siteId.Some? && copy.siteStatus != Some("active"), "site_inactive", false)
    + Note(copy.siteId.None?, "site_unknown", true)
  }

  function DeviceFindings(copy: CopyFact): seq<Finding> {
    Note(copy.archiveRootStatus != Some("active"), "archive_root_inactive", false)
    + Note(copy.archiveRootDeviceId != copy.deviceId, "archive_root_device_mismatch", true)
    + Note(copy.deviceStatus != Some("active"), "device_inactive", false)
    + Note(copy.deviceIdentityState != Some("confirmed"), "device_identity_unconfirmed", true)
    + Note(copy.lastFingerprintStatus != Some("match"), "device_fingerprint_not_matched", true)
  }

  function EncryptionFindings(copy: CopyFact, file: FileFact, r: PolicyRequirements): seq<Finding> {
    if r.requireEncryptedOffsite && SiteOf(copy) != file.homeSiteId && copy.encryptionState != Some("encrypted") then
      if copy.encryptionState == Some("unencrypted") then [Finding("offsite_copy_unencrypted", false)]
      else [Finding("offsite_encryption_unknown", true)]
    else []
  }

  function DevicePlan(copy: CopyFact, r: PolicyRequirements): seq<Item> {
    if copy.locationKind == "filesystem" then
      [Static(DeviceFindings(copy)),
       Timed(Check(copy.lastCheckinMs, r.maxDeviceCheckinAgeDays, "device_checkin")),
       Timed(Check(copy.lastFingerprintMatchMs, r.maxDeviceCheckinAgeDays, "device_fingerprint"))]
    else [Static(Note(copy.locationKind != "service", "location_kind_unknown", true))]
  }

  function VerificationPlan(copy: CopyFact, file: FileFact, r: PolicyRequirements): seq<Item> {
    [Static(IdentityFindings(copy, file)),
     Timed(Check(copy.lastVerifiedMs, r.maxVerificationAgeDays, "verification")),
     Timed(Check(copy.lastSeenMs, r.maxObservationAgeDays, "observation"))]
  }

  function Plan(copy: CopyFact, file: FileFact, r: PolicyRequirements): seq<Item> {
    VerificationPlan(copy, file, r) + [Static(PlaceFindings(copy))] + DevicePlan(copy, r)
    + [Static(EncryptionFindings(copy, file, r))]
  }

  // ----- domains and the qualified copy -----

  datatype EntityType = LocationEntity | ArchiveRootEntity | DeviceEntity | SiteEntity

  /** A loss domain; the kind is the text before the first colon of its name. */
  datatype Domain = Device(id: string) | Service(id: string) | Site(id: string) | Risk(id: string)

  type Assignments = map<(EntityType, string), set<string>>

  function RisksOf(topology: Assignments, kind: EntityType, id: Option<string>): set<Domain> {
    if id.Some? && (kind, id.value) in topology then set x | x in topology[(kind, id.value)] :: Risk(x) else {}
  }

  function DomainsOf(copy: CopyFact, topology: Assignments): set<Domain> {
    {if copy.deviceId.Some? then Device(copy.deviceId.value) else Service(copy.locationId)}
    + {Site(SiteOf(copy))}
    + RisksOf(topology, LocationEntity, Some(copy.locationId))
    + RisksOf(topology, ArchiveRootEntity, copy.archiveRootId)
    + RisksOf(topology, DeviceEntity, copy.deviceId)
    + RisksOf(topology, SiteEntity, Some(SiteOf(copy)))
  }

  datatype QualifiedCopy = QualifiedCopy(
    copyClaimId: string, locationId: string, deviceId: Option<string>, siteId: string,
    offsite: bool, offline: bool, encrypted: bool, domains: set<Domain>)

  function Qualify(copy: CopyFact, file: FileFact, topology: Assignments): QualifiedCopy {
    QualifiedCopy(copy.copyClaimId, copy.locationId, copy.deviceId, SiteOf(copy), SiteOf(copy) != file.homeSiteId,
                  copy.locationExpectedAvailability == "offline" || copy.deviceExpectedAvailability == Some("offline"),
                  copy.encryptionState == Some("encrypted"), DomainsOf(copy, topology))
  }

  datatype CopyAssessment = CopyAssessment(qualified: Option<QualifiedCopy>, reasons: seq<string>, uncertain: bool)

  function Reasons(findings: seq<Finding>): seq<string> {
    seq(|findings|, i requires 0 <= i < |findings| => findings[i].reason)
  }

  /** What an assessment that saw `seen` concludes. */
  function Conclude(copy: CopyFact, file: FileFact, topology: Assignments, seen: Seen): CopyAssessment {
    CopyAssessment(if |seen.findings| == 0 then Some(Qualify(copy, file, topology)) else None,
                   Reasons(seen.findings), AnyUncertain(seen.findings))
  }

  function Assessed(copy: CopyFact, file: FileFact, r: PolicyRequirements, topology: Assignments, now: nat)
    : (result: Result<CopyAssessment, PolicyError>)
    ensures result.Ok? <==> RunPlan(Plan(copy, file, r), now).Ok?
  {
    var run := RunPlan(Plan(copy, file, r), now);
    if run.Err? then Err(run.error) else Ok(Conclude(copy, file, topology, run.value))
  }

  lemma ReasonsAppend(a: seq<Finding>, b: seq<Finding>)
    ensures Reasons(a + b) == Reasons(a) + Reasons(b)
    ensures AnyUncertain(a + b) <==> AnyUncertain(a) || AnyUncertain(b)
  {
    forall i | 0 <= i < |a| ensures (a + b)[i] == a[i] {}
    forall i | 0 <= i < |b| ensures (a + b)[|a| + i] == b[i] {}
  }

  lemma PlanSnoc(plan: seq<Item>, item: Item, now: nat)
    ensures var before := RunPlan(plan, now);
            RunPlan(plan + [item], now) == if before.Err? then before else SeenItem(item, before.value, now)
  {
    assert (plan + [item])[..|plan|] == plan;
  }

  lemma FiveNotes(before: seq<Finding>, copy: CopyFact)
    ensures before + Note(copy.archiveRootStatus != Some("active"), "archive_root_inactive", false)
            + Note(copy.archiveRootDeviceId != copy.deviceId, "archive_root_device_mismatch", true)
            + Note(copy.deviceStatus != Some("active"), "device_inactive", false)
            + Note(copy.deviceIdentityState != Some("confirmed"), "device_identity_unconfirmed", true)
            + Note(copy.lastFingerprintStatus != Some("match"), "device_fingerprint_not_matched", true)
            == before + DeviceFindings(copy)
  {
    hide Note;
  }

  /** The mutable part of an assessment. `validUntil` carries over from copy to copy of one file. */
  class Assessor {
    var reasons: seq<string>
    var uncertain: bool
    var validUntil: Option<nat>
    ghost var findings: seq<Finding>

    constructor ()
      ensures Valid() && findings == [] && validUntil == None
    {
      reasons, uncertain, validUntil, findings := [], false, None, [];
    }

    ghost predicate Valid()
      reads this
    {
      reasons == Reasons(findings) && uncertain == AnyUncertain(findings)
    }

    method Push(reason: string)
      requires Valid()
      modifies this`reasons, this`findings
      ensures Valid() && findings == old(findings) + [Finding(reason, false)]
    {
      ReasonsAppend(findings, [Finding(reason, false)]);
      reasons := reasons + [reason];
      findings := findings + [Finding(reason, false)];
    }

    method MarkUncertain(reason: string)
      requires Valid()
      modifies this`reasons, this`uncertain, this`findings
      ensures Valid() && findings == old(findings) + [Finding(reason, true)]
    {
      ReasonsAppend(findings, [Finding(reason, true)]);
      assert [Finding(reason, true)][0].uncertain;
      reasons := reasons + [reason];
      uncertain := true;
      findings := findings + [Finding(reason, true)];
    }

    /** `check_freshness`. */
    method CheckFreshness(timestamp: Option<nat>, maxAgeDays: nat, now: nat, name: string)
      returns (r: Result<(), PolicyError>)
      requires Valid()
      modifies this
      ensures Valid()
      ensures var after := SeenItem(Timed(Check(timestamp, maxAgeDays, name)), Seen(old(findings), old(validUntil)), now);
              if r.Ok? then after == Ok(Seen(findings, validUntil)) else after == Err(r.error)
    {
      if timestamp.None? {
        MarkUncertain(name + "_time_missing");
        return Ok(());
      }
      if timestamp.value > now {
        MarkUncertain(name + "_time_in_future");
        return Ok(());
      }
      if maxAgeDays * DAY_MS > U64_MAX {
        return Err(InvalidState);
      }
      var ageMs := maxAgeDays * DAY_MS;
      if timestamp.value + ageMs > U64_MAX {
        return Err(InvalidState);
      }
      var expiry := timestamp.value + ageMs;
      if expiry <= now {
        MarkUncertain(name + "_stale");
      } else {
        validUntil := MinTime(validUntil, Some(expiry));
      }
      return Ok(());
    }

    method CheckIdentity(copy: CopyFact, file: FileFact)
      requires Valid()
      modifies this`reasons, this`uncertain, this`findings
      ensures Valid() && findings == old(findings) + IdentityFindings(copy, file)
    {
      if copy.objectId != file.objectId {
        Push("object_identity_mismatch");
      }
      if copy.state != "present" {
        Push("copy_state_" + copy.state);
      }
      match copy.lastVerificationResult {
        case None => MarkUncertain("verification_missing");
        case Some(result) =>
          if result != "ok" {
            Push("verification_" + result);
          }
      }
    }

    method CheckPlace(copy: CopyFact) returns (siteId: string)
      requires Valid()
      modifies this`reasons, this`uncertain, this`findings
      ensures Valid() && findings == old(findings) + PlaceFindings(copy)
      ensures siteId == SiteOf(copy)
    {
      hide Valid, Reasons, AnyUncertain;
      if copy.locationStatus != "active" {
        Push("location_inactive");
      }
      if copy.trustLevel == Some("trusted") {
      } else if copy.trustLevel == Some("untrusted") {
        Push("location_untrusted");
      } else {
        MarkUncertain("location_trust_unknown");
      }
      siteId := "";
      match copy.siteId {
        case Some(id) =>
          if copy.siteStatus == Some("active") {
            siteId := id;
          } else {
            Push("site_inactive");
          }
        case None => MarkUncertain("site_unknown");
      }
    }

    method CheckDevice(copy: CopyFact)
      requires Valid()
      modifies this`reasons, this`uncertain, this`findings
      ensures Valid() && findings == old(findings) + DeviceFindings(copy)
    {
      hide Valid, Reasons, AnyUncertain;
      ghost var f0 := findings;
      if copy.archiveRootStatus != Some("active") {
        Push("archive_root_inactive");
      }
      ghost var f1 := findings;
      assert f1 == f0 + Note(copy.archiveRootStatus != Some("active"), "archive_root_inactive", false);
      if copy.archiveRootDeviceId != copy.deviceId {
        MarkUncertain("archive_root_device_mismatch");
      }
      ghost var f2 := findings;
      assert f2 == f1 + Note(copy.archiveRootDeviceId != copy.deviceId, "archive_root_device_mismatch", true);
      if copy.deviceStatus != Some("active") {
        Push("device_inactive");
      }
      ghost var f3 := findings;
      assert f3 == f2 + Note(copy.deviceStatus != Some("active"), "device_inactive", false);
      if copy.deviceIdentityState != Some("confirmed") {
        MarkUncertain("device_identity_unconfirmed");
      }
      ghost var f4 := findings;
      assert f4 == f3 + Note(copy.deviceIdentityState != Some("confirmed"), "device_identity_unconfirmed", true);
      if copy.lastFingerprintStatus != Some("match") {
        MarkUncertain("device_fingerprint_not_matched");
      }
      assert findings == f4 + Note(copy.lastFingerprintStatus != Some("match"), "device_fingerprint_not_matched", true);
      FiveNotes(f0, copy);
    }

    method CheckEncryption(copy: CopyFact, file: FileFact, r: PolicyRequirements, siteId: string)
      requires Valid() && siteId == SiteOf(copy)
      modifies this`reasons, this`uncertain, this`findings
      ensures Valid() && findings == old(findings) + EncryptionFindings(copy, file, r)
    {
      if r.requireEncryptedOffsite && siteId != file.homeSiteId && copy.encryptionState != Some("encrypted") {
        if copy.encryptionState == Some("unencrypted") {
          Push("offsite_copy_unencrypted");
        } else {
          MarkUncertain("offsite_encryption_unknown");
        }
      }
    }

    /** The freshness checks of a filesystem location, after its device checks. */
    method CheckKind(copy: CopyFact, r: PolicyRequirements, now: nat, ghost plan: seq<Item>, ghost start: Option<nat>)
      returns (ok: Result<(), PolicyError>)
      requires Valid() && RunsTo(plan, now, start, findings, validUntil)
      modifies this
      ensures Valid()
      ensures ok.Ok? ==> RunsTo(plan + DevicePlan(copy, r), now, start, findings, validUntil)
      ensures ok.Err? ==> RunPlan(plan + DevicePlan(copy, r), now) == Err(ok.error)
    {
      hide DeviceFindings, RunPlan, RunsTo, SeenItem, MinTime, Reasons, AnyUncertain;
      if copy.locationKind == "filesystem" {
        ghost var checkin := Check(copy.lastCheckinMs, r.maxDeviceCheckinAgeDays, "device_checkin");
        ghost var fingerprint := Check(copy.lastFingerprintMatchMs, r.maxDeviceCheckinAgeDays, "device_fingerprint");
        ghost var p1 := plan + [Static(DeviceFindings(copy))];
        ghost var p2 := p1 + [Timed(checkin)];
        assert plan + DevicePlan(copy, r) == p2 + [Timed(fingerprint)];
        RunsStatic(plan, now, start, findings, validUntil, DeviceFindings(copy));
        CheckDevice(copy);
        RunsTimed(p1, now, start, findings, validUntil, checkin);
        ok := CheckFreshness(copy.lastCheckinMs, r.maxDeviceCheckinAgeDays, now, "device_checkin");
        if ok.Err? {
          PlanFails(p2, p2 + [Timed(fingerprint)], now);
          return;
        }
        RunsTimed(p2, now, start, findings, validUntil, fingerprint);
        ok := CheckFreshness(copy.lastFingerprintMatchMs, r.maxDeviceCheckinAgeDays, now, "device_fingerprint");
        return;
      }
      RunsStatic(plan, now, start, findings, validUntil, Note(copy.locationKind != "service", "location_kind_unknown", true));
      if copy.locationKind != "service" {
        MarkUncertain("location_kind_unknown");
      } else {
        assert findings + Note(false, "location_kind_unknown", true) == findings;
      }
      return Ok(());
    }

    /** `assess_copy`. */
    method AssessCopy(copy: CopyFact, file: FileFact, r: PolicyRequirements, topology: Assignments, now: nat)
      returns (result: Result<CopyAssessment, PolicyError>)
      modifies this
      ensures Valid()
      ensures result == Assessed(copy, file, r, topology, now)
      ensures result.Ok? ==> validUntil == MinTime(old(validUntil), RunPlan(Plan(copy, file, r), now).value.validUntil)
    {
      hide IdentityFindings, PlaceFindings, EncryptionFindings, DevicePlan, Qualify, RunPlan, RunsTo, SeenItem, MinTime, Plan;
      ghost var start := validUntil;
      reasons, uncertain, findings := [], false, [];
      ghost var verification := Check(copy.lastVerifiedMs, r.maxVerificationAgeDays, "verification");
      ghost var observation := Check(copy.lastSeenMs, r.maxObservationAgeDays, "observation");
      ghost var p0 := [] + [Static(IdentityFindings(copy, file))];
      ghost var p1 := p0 + [Timed(verification)];
      ghost var p2 := p1 + [Timed(observation)];
      ghost var p3 := p2 + [Static(PlaceFindings(copy))];
      ghost var p4 := p3 + DevicePlan(copy, r);
      ghost var plan := Plan(copy, file, r);
      PlanIs(copy, file, r);
      RunsNothing(now, start);
      RunsStatic([], now, start, findings, validUntil, IdentityFindings(copy, file));
      CheckIdentity(copy, file);
      RunsTimed(p0, now, start, findings, validUntil, verification);
      var verified := CheckFreshness(copy.lastVerifiedMs, r.maxVerificationAgeDays, now, "verification");
      if verified.Err? {
        PlanFails(p1, plan, now);
        return Err(verified.error);
      }
      RunsTimed(p1, now, start, findings, validUntil, observation);
      var observed := CheckFreshness(copy.lastSeenMs, r.maxObservationAgeDays, now, "observation");
      if observed.Err? {
        PlanFails(p2, plan, now);
        return Err(observed.error);
      }
      RunsStatic(p2, now, start, findings, validUntil, PlaceFindings(copy));
      var siteId := CheckPlace(copy);
      var located := CheckKind(copy, r, now, p3, start);
      if located.Err? {
        PlanFails(p4, plan, now);
        return Err(located.error);
      }
      RunsStatic(p4, now, start, findings, validUntil, EncryptionFindings(copy, file, r));
      CheckEncryption(copy, file, r, siteId);
      RunsMeans(plan, now, start, findings, validUntil);
      result := Ok(CopyAssessment(if |reasons| == 0 then Some(Qualify(copy, file, topology)) else None, reasons, uncertain));
    }
  }

  /** Running `plan` gives these findings, with the expiry combined into an earlier one. */
  ghost predicate RunsTo(plan: seq<Item>, now: nat, start: Option<nat>, findings: seq<Finding>, validUntil: Option<nat>) {
    var run := RunPlan(plan, now);
    run.Ok? && run.value.findings == findings && validUntil == MinTime(start, run.value.validUntil)
  }

  lemma RunsMeans(plan: seq<Item>, now: nat, start: Option<nat>, findings: seq<Finding>, validUntil: Option<nat>)
    requires RunsTo(plan, now, start, findings, validUntil)
    ensures RunPlan(plan, now).Ok? && RunPlan(plan, now).value.findings == findings
    ensures validUntil == MinTime(start, RunPlan(plan, now).value.validUntil)
  {
  }

  lemma RunsNothing(now: nat, start: Option<nat>)
    ensures RunsTo([], now, start, [], start)
  {
  }

  lemma RunsStatic(plan: seq<Item>, now: nat, start: Option<nat>, findings: seq<Finding>, validUntil: Option<nat>, more: seq<Finding>)
    requires RunsTo(plan, now, start, findings, validUntil)
    ensures RunsTo(plan + [Static(more)], now, start, findings + more, validUntil)
  {
    hide RunPlan;
    PlanSnoc(plan, Static(more), now);
  }

  lemma RunsTimed(plan: seq<Item>, now: nat, start: Option<nat>, findings: seq<Finding>, validUntil: Option<nat>, c: Check)
    requires RunsTo(plan, now, start, findings, validUntil)
    ensures var after := SeenItem(Timed(c), Seen(findings, validUntil), now);
            if after.Ok? then RunsTo(plan + [Timed(c)], now, start, after.value.findings, after.value.validUntil)
            else RunPlan(plan + [Timed(c)], now) == Err(after.error)
  {
    hide RunPlan, FreshnessAt;
    PlanSnoc(plan, Timed(c), now);
  }

  /** The plan of a copy, in the order in which it is assessed. */
  lemma PlanIs(copy: CopyFact, file: FileFact, r: PolicyRequirements)
    ensures var p1 := [] + [Static(IdentityFindings(copy, file))]
                      + [Timed(Check(copy.lastVerifiedMs, r.maxVerificationAgeDays, "verification"))];
            var p2 := p1 + [Timed(Check(copy.lastSeenMs, r.maxObservationAgeDays, "observation"))];
            var p4 := p2 + [Static(PlaceFindings(copy))] + DevicePlan(copy, r);
            Plan(copy, file, r) == p4 + [Static(EncryptionFindings(copy, file, r))] && p1 <= p2 <= p4 <= Plan(copy, file, r)
  {
    hide IdentityFindings, PlaceFindings, EncryptionFindings, DevicePlan;
  }

  /** A plan that fails early fails. */
  lemma {:induction false} PlanFails(part: seq<Item>, plan: seq<Item>, now: nat)
    requires part <= plan && RunPlan(part, now).Err?
    ensures RunPlan(plan, now) == RunPlan(part, now)
    decreases |plan|
  {
    if |plan| == |part| {
      assert plan == part;
    } else {
      PlanFails(part, plan[..|plan| - 1], now);
    }
  }
}
