/** What the verdicts mean, said of the copies' fields and times alone. */
module PolicyFacts {
  import opened Wrappers
  import opened PolicyAssess
  import opened PolicyEvaluate

  // ----- one copy -----

  /** A time that is recorded, has come, and is less than so many days old. */
  ghost predicate Current(time: Option<nat>, days: nat, now: nat) {
    time.Some? && time.value <= now < time.value + days * 86_400_000
  }

  /** The device of a filesystem copy is the right one, active, confirmed, and was lately seen to match. */
  ghost predicate OnGoodDevice(copy: CopyFact, r: PolicyRequirements, now: nat) {
    && copy.archiveRootStatus == Some("active") && copy.archiveRootDeviceId == copy.deviceId
    && copy.deviceStatus == Some("active") && copy.deviceIdentityState == Some("confirmed")
    && copy.lastFingerprintStatus == Some("match")
    && Current(copy.lastCheckinMs, r.maxDeviceCheckinAgeDays, now)
    && Current(copy.lastFingerprintMatchMs, r.maxDeviceCheckinAgeDays, now)
  }

  /** The site a copy counts for is not the file's home; a copy without an active site has none. */
  ghost predicate Offsite(copy: CopyFact, file: FileFact) {
    if copy.siteId.Some? && copy.siteStatus == Some("active") then copy.siteId.value != file.homeSiteId else file.homeSiteId != ""
  }

  /** A copy that may count. */
  ghost predicate Qualifies(copy: CopyFact, file: FileFact, r: PolicyRequirements, now: nat) {
    && copy.objectId == file.objectId && copy.state == "present" && copy.lastVerificationResult == Some("ok")
    && Current(copy.lastVerifiedMs, r.maxVerificationAgeDays, now) && Current(copy.lastSeenMs, r.maxObservationAgeDays, now)
    && copy.locationStatus == "active" && copy.trustLevel == Some("trusted")
    && copy.siteId.Some? && copy.siteStatus == Some("active")
    && (copy.locationKind == "service" || (copy.locationKind == "filesystem" && OnGoodDevice(copy, r, now)))
    && (r.requireEncryptedOffsite && Offsite(copy, file) ==> copy.encryptionState == Some("encrypted"))
  }

  /** New information might still make the copy count. */
  ghost predicate Doubtful(copy: CopyFact, file: FileFact, r: PolicyRequirements, now: nat) {
    || copy.lastVerificationResult.None?
    || !Current(copy.lastVerifiedMs, r.maxVerificationAgeDays, now) || !Current(copy.lastSeenMs, r.maxObservationAgeDays, now)
    || (copy.trustLevel != Some("trusted") && copy.trustLevel != Some("untrusted"))
    || copy.siteId.None?
    || (copy.locationKind != "filesystem" && copy.locationKind != "service")
    || (copy.locationKind == "filesystem" && (
          || copy.archiveRootDeviceId != copy.deviceId || copy.deviceIdentityState != Some("confirmed")
          || copy.lastFingerprintStatus != Some("match")
          || !Current(copy.lastCheckinMs, r.maxDeviceCheckinAgeDays, now)
          || !Current(copy.lastFingerprintMatchMs, r.maxDeviceCheckinAgeDays, now)))
    || (r.requireEncryptedOffsite && Offsite(copy, file)
        && copy.encryptionState != Some("encrypted") && copy.encryptionState != Some("unencrypted"))
  }

  /** The expiry of a recorded time that has come fits an unsigned 64-bit integer. */
  ghost predicate Fits(time: Option<nat>, days: nat, now: nat) {
    time.Some? && time.value <= now ==> time.value + days * 86_400_000 < 0x1_0000_0000_0000_0000
  }

  ghost predicate AllFit(copy: CopyFact, r: PolicyRequirements, now: nat) {
    && Fits(copy.lastVerifiedMs, r.maxVerificationAgeDays, now) && Fits(copy.lastSeenMs, r.maxObservationAgeDays, now)
    && (copy.locationKind == "filesystem" ==>
          && Fits(copy.lastCheckinMs, r.maxDeviceCheckinAgeDays, now)
          && Fits(copy.lastFingerprintMatchMs, r.maxDeviceCheckinAgeDays, now))
  }

  /** `expiry` ends one of the times the copy counts by. */
  ghost predicate ExpiresAt(copy: CopyFact, r: PolicyRequirements, now: nat, expiry: nat) {
    || Ends(copy.lastVerifiedMs, r.maxVerificationAgeDays, now, expiry)
    || Ends(copy.lastSeenMs, r.maxObservationAgeDays, now, expiry)
    || (copy.locationKind == "filesystem" && (
          || Ends(copy.lastCheckinMs, r.maxDeviceCheckinAgeDays, now, expiry)
          || Ends(copy.lastFingerprintMatchMs, r.maxDeviceCheckinAgeDays, now, expiry)))
  }

  ghost predicate Ends(time: Option<nat>, days: nat, now: nat, expiry: nat) {
    Current(time, days, now) && expiry == time.value + days * 86_400_000
  }

  lemma FreshnessMeans(c: Check, now: nat)
    ensures FreshnessAt(c, now).Overflow? <==> !Fits(c.timestamp, c.maxAgeDays, now)
    ensures !FreshnessAt(c, now).Overflow? ==> (FreshnessAt(c, now).Fresh? <==> Current(c.timestamp, c.maxAgeDays, now))
    ensures FreshnessAt(c, now).Fresh? ==> Ends(c.timestamp, c.maxAgeDays, now, FreshnessAt(c, now).expiry)
  {
  }

  lemma {:induction false} PlanRuns(plan: seq<Item>, now: nat)
    ensures RunPlan(plan, now).Ok? <==>
            forall i :: 0 <= i < |plan| && plan[i].Timed? ==> Fits(plan[i].check.timestamp, plan[i].check.maxAgeDays, now)
  {
    if |plan| > 0 {
      var init, last := plan[..|plan| - 1], plan[|plan| - 1];
      PlanRuns(init, now);
      if last.Timed? { FreshnessMeans(last.check, now); }
      assert forall i :: 0 <= i < |init| ==> init[i] == plan[i];
    }
  }

  /** The parts of a plan, one by one. */
  lemma PlanParts(copy: CopyFact, file: FileFact, r: PolicyRequirements)
    ensures var plan, n := Plan(copy, file, r), if copy.locationKind == "filesystem" then 7 else 5;
            && |plan| == n + 1
            && plan[0] == Static(IdentityFindings(copy, file))
            && plan[1] == Timed(Check(copy.lastVerifiedMs, r.maxVerificationAgeDays, "verification"))
            && plan[2] == Timed(Check(copy.lastSeenMs, r.maxObservationAgeDays, "observation"))
            && plan[3] == Static(PlaceFindings(copy))
            && (n == 5 ==> plan[4] == Static(Note(copy.locationKind != "service", "location_kind_unknown", true)))
            && (n == 7 ==> && plan[4] == Static(DeviceFindings(copy))
                           && plan[5] == Timed(Check(copy.lastCheckinMs, r.maxDeviceCheckinAgeDays, "device_checkin"))
                           && plan[6] == Timed(Check(copy.lastFingerprintMatchMs, r.maxDeviceCheckinAgeDays, "device_fingerprint")))
            && plan[n] == Static(EncryptionFindings(copy, file, r))
  {
    hide IdentityFindings, PlaceFindings, DeviceFindings, EncryptionFindings, Note;
  }

  /** An assessment fails exactly when one of the copy's expiries does not fit. */
  lemma AssessedWhen(copy: CopyFact, file: FileFact, r: PolicyRequirements, topology: Assignments, now: nat)
    ensures Assessed(copy, file, r, topology, now).Ok? <==> AllFit(copy, r, now)
  {
    hide Plan, RunPlan, Fits;
    var plan := Plan(copy, file, r);
    PlanRuns(plan, now);
    PlanParts(copy, file, r);
    assert AllFit(copy, r, now) ==> RunPlan(plan, now).Ok?;
    if RunPlan(plan, now).Ok? {
      assert plan[1].Timed? && plan[2].Timed?;
      if copy.locationKind == "filesystem" { assert plan[5].Timed? && plan[6].Timed?; }
    }
  }

  /** The checks that need no clock. */
  lemma StaticParts(copy: CopyFact, file: FileFact, r: PolicyRequirements)
    ensures |IdentityFindings(copy, file)| == 0 <==>
            copy.objectId == file.objectId && copy.state == "present" && copy.lastVerificationResult == Some("ok")
    ensures |PlaceFindings(copy)| == 0 <==>
            && copy.locationStatus == "active" && copy.trustLevel == Some("trusted")
            && copy.siteId.Some? && copy.siteStatus == Some("active")
    ensures |DeviceFindings(copy)| == 0 <==>
            && copy.archiveRootStatus == Some("active") && copy.archiveRootDeviceId == copy.deviceId
            && copy.deviceStatus == Some("active") && copy.deviceIdentityState == Some("confirmed")
            && copy.lastFingerprintStatus == Some("match")
    ensures |EncryptionFindings(copy, file, r)| == 0 <==>
            (r.requireEncryptedOffsite && Offsite(copy, file) ==> copy.encryptionState == Some("encrypted"))
    ensures |Note(copy.locationKind != "service", "location_kind_unknown", true)| == 0 <==> copy.locationKind == "service"
  {
  }

  /** Which copies count: exactly those all of whose fields and times are in order. */
  lemma QualifiesExactly(copy: CopyFact, file: FileFact, r: PolicyRequirements, topology: Assignments, now: nat)
    requires Assessed(copy, file, r, topology, now).Ok?
    ensures var a := Assessed(copy, file, r, topology, now).value;
            && (a.qualified.Some? <==> Qualifies(copy, file, r, now))
            && (a.reasons == [] <==> Qualifies(copy, file, r, now))
  {
    hide Plan, RunPlan, Qualify, Offsite, FreshnessAt, Current,
         IdentityFindings, PlaceFindings, DeviceFindings, EncryptionFindings, Note;
    var plan := Plan(copy, file, r);
    PlanItems(plan, now);
    PlanParts(copy, file, r);
    StaticParts(copy, file, r);
    TimedParts(copy, file, r, now);
    var quiet := |RunPlan(plan, now).value.findings| == 0;
    if quiet {
      assert QuietItem(plan[0], now) && QuietItem(plan[1], now) && QuietItem(plan[2], now) && QuietItem(plan[3], now);
      assert QuietItem(plan[4], now) && QuietItem(plan[|plan| - 1], now);
      if copy.locationKind == "filesystem" { assert QuietItem(plan[5], now) && QuietItem(plan[6], now); }
    } else {
      var i :| 0 <= i < |plan| && !QuietItem(plan[i], now);
    }
  }

  lemma TimedParts(copy: CopyFact, file: FileFact, r: PolicyRequirements, now: nat)
    requires RunPlan(Plan(copy, file, r), now).Ok?
    ensures forall i :: 0 <= i < |Plan(copy, file, r)| && Plan(copy, file, r)[i].Timed? ==>
              var c := Plan(copy, file, r)[i].check;
              && !FreshnessAt(c, now).Overflow?
              && (FreshnessAt(c, now).Fresh? <==> Current(c.timestamp, c.maxAgeDays, now))
  {
    hide Plan, RunPlan, FreshnessAt, Current, Fits;
    var plan := Plan(copy, file, r);
    PlanRuns(plan, now);
    forall i | 0 <= i < |plan| && plan[i].Timed?
      ensures !FreshnessAt(plan[i].check, now).Overflow?
      ensures FreshnessAt(plan[i].check, now).Fresh? <==> Current(plan[i].check.timestamp, plan[i].check.maxAgeDays, now)
    {
      FreshnessMeans(plan[i].check, now);
    }
  }

  /** Uncertainty of the checks that need no clock. */
  lemma StaticDoubts(copy: CopyFact, file: FileFact, r: PolicyRequirements)
    ensures AnyUncertain(IdentityFindings(copy, file)) <==> copy.lastVerificationResult.None?
    ensures AnyUncertain(PlaceFindings(copy)) <==>
            (copy.trustLevel != Some("trusted") && copy.trustLevel != Some("untrusted")) || copy.siteId.None?
    ensures AnyUncertain(DeviceFindings(copy)) <==>
            || copy.archiveRootDeviceId != copy.deviceId || copy.deviceIdentityState != Some("confirmed")
            || copy.lastFingerprintStatus != Some("match")
    ensures AnyUncertain(EncryptionFindings(copy, file, r)) <==>
            r.requireEncryptedOffsite && Offsite(copy, file)
            && copy.encryptionState != Some("encrypted") && copy.encryptionState != Some("unencrypted")
    ensures AnyUncertain(Note(copy.locationKind != "service", "location_kind_unknown", true)) <==> copy.locationKind != "service"
  {
    hide IdentityFindings, PlaceFindings, DeviceFindings;
    NoteDoubts();
    OneUncertain("offsite_encryption_unknown");
    IdentityDoubts(copy, file);
    PlaceDoubts(copy);
    DeviceDoubts(copy);
  }

  lemma IdentityDoubts(copy: CopyFact, file: FileFact)
    ensures AnyUncertain(IdentityFindings(copy, file)) <==> copy.lastVerificationResult.None?
  {
    var a := Note(copy.objectId != file.objectId, "object_identity_mismatch", false);
    var b := Note(copy.state != "present", "copy_state_" + copy.state, false);
    UncertainAppend(a, b);
    match copy.lastVerificationResult
    case None =>
      UncertainAppend(a + b, [Finding("verification_missing", true)]);
      OneUncertain("verification_missing");
    case Some(result) => UncertainAppend(a + b, Note(result != "ok", "verification_" + result, false));
  }

  lemma PlaceDoubts(copy: CopyFact)
    ensures AnyUncertain(PlaceFindings(copy)) <==>
            (copy.trustLevel != Some("trusted") && copy.trustLevel != Some("untrusted")) || copy.siteId.None?
  {
    hide AnyUncertain, Note;
    NoteDoubts();
    FiveDoubts(Note(copy.locationStatus != "active", "location_inactive", false),
               Note(copy.trustLevel == Some("untrusted"), "location_untrusted", false),
               Note(copy.trustLevel != Some("untrusted") && copy.trustLevel != Some("trusted"), "location_trust_unknown", true),
               Note(copy.siteId.Some? && copy.siteStatus != Some("active"), "site_inactive", false),
               Note(copy.siteId.None?, "site_unknown", true));
  }

  lemma DeviceDoubts(copy: CopyFact)
    ensures AnyUncertain(DeviceFindings(copy)) <==>
            || copy.archiveRootDeviceId != copy.deviceId || copy.deviceIdentityState != Some("confirmed")
            || copy.lastFingerprintStatus != Some("match")
  {
    hide AnyUncertain, Note;
    NoteDoubts();
    FiveDoubts(Note(copy.archiveRootStatus != Some("active"), "archive_root_inactive", false),
               Note(copy.archiveRootDeviceId != copy.deviceId, "archive_root_device_mismatch", true),
               Note(copy.deviceStatus != Some("active"), "device_inactive", false),
               Note(copy.deviceIdentityState != Some("confirmed"), "device_identity_unconfirmed", true),
               Note(copy.lastFingerprintStatus != Some("match"), "device_fingerprint_not_matched", true));
  }

  lemma FiveDoubts(a: seq<Finding>, b: seq<Finding>, c: seq<Finding>, d: seq<Finding>, e: seq<Finding>)
    ensures AnyUncertain(a + b + c + d + e) <==>
            AnyUncertain(a) || AnyUncertain(b) || AnyUncertain(c) || AnyUncertain(d) || AnyUncertain(e)
  {
    hide AnyUncertain;
    UncertainAppend(a, b);
    UncertainAppend(a + b, c);
    UncertainAppend(a + b + c, d);
    UncertainAppend(a + b + c + d, e);
  }

  lemma NoteDoubts()
    ensures forall found, reason, uncertain :: AnyUncertain(Note(found, reason, uncertain)) <==> found && uncertain
  {
    forall found, reason, uncertain ensures AnyUncertain(Note(found, reason, uncertain)) <==> found && uncertain {
      if found && uncertain { OneUncertain(reason); }
    }
  }

  /** Which copies are uncertain. */
  lemma DoubtfulExactly(copy: CopyFact, file: FileFact, r: PolicyRequirements, topology: Assignments, now: nat)
    requires Assessed(copy, file, r, topology, now).Ok?
    ensures Assessed(copy, file, r, topology, now).value.uncertain <==> Doubtful(copy, file, r, now)
  {
    hide Plan, RunPlan, Qualify, Offsite, FreshnessAt, Current, AnyUncertain,
         IdentityFindings, PlaceFindings, DeviceFindings, EncryptionFindings, Note;
    var plan := Plan(copy, file, r);
    PlanItems(plan, now);
    PlanParts(copy, file, r);
    StaticDoubts(copy, file, r);
    TimedParts(copy, file, r, now);
    if AnyUncertain(RunPlan(plan, now).value.findings) {
      var i :| 0 <= i < |plan| && UncertainItem(plan[i], now);
    } else {
      assert !UncertainItem(plan[0], now) && !UncertainItem(plan[1], now) && !UncertainItem(plan[2], now);
      assert !UncertainItem(plan[3], now) && !UncertainItem(plan[4], now) && !UncertainItem(plan[|plan| - 1], now);
      if copy.locationKind == "filesystem" { assert !UncertainItem(plan[5], now) && !UncertainItem(plan[6], now); }
    }
  }

  // ----- the reasons given -----

  ghost predicate TimeReason(time: Option<nat>, days: nat, now: nat, name: string, reason: string) {
    if time.None? then reason == name + "_time_missing"
    else if time.value > now then reason == name + "_time_in_future"
    else time.value + days * 86_400_000 <= now && reason == name + "_stale"
  }

  /** The reasons for which a copy does not count. */
  ghost predicate IsReason(copy: CopyFact, file: FileFact, r: PolicyRequirements, now: nat, reason: string) {
    || (reason == "object_identity_mismatch" && copy.objectId != file.objectId)
    || (reason == "copy_state_" + copy.state && copy.state != "present")
    || (reason == "verification_missing" && copy.lastVerificationResult.None?)
    || (copy.lastVerificationResult.Some? && copy.lastVerificationResult.value != "ok"
        && reason == "verification_" + copy.lastVerificationResult.value)
    || TimeReason(copy.lastVerifiedMs, r.maxVerificationAgeDays, now, "verification", reason)
    || TimeReason(copy.lastSeenMs, r.maxObservationAgeDays, now, "observation", reason)
    || IsPlaceReason(copy, reason)
    || (copy.locationKind == "filesystem" && (
          || IsDeviceReason(copy, reason)
          || TimeReason(copy.lastCheckinMs, r.maxDeviceCheckinAgeDays, now, "device_checkin", reason)
          || TimeReason(copy.lastFingerprintMatchMs, r.maxDeviceCheckinAgeDays, now, "device_fingerprint", reason)))
    || (reason == "location_kind_unknown" && copy.locationKind != "filesystem" && copy.locationKind != "service")
    || (r.requireEncryptedOffsite && Offsite(copy, file) && (
          || (reason == "offsite_copy_unencrypted" && copy.encryptionState == Some("unencrypted"))
          || (reason == "offsite_encryption_unknown"
              && copy.encryptionState != Some("encrypted") && copy.encryptionState != Some("unencrypted"))))
  }

  ghost predicate IsPlaceReason(copy: CopyFact, reason: string) {
    || (reason == "location_inactive" && copy.locationStatus != "active")
    || (reason == "location_untrusted" && copy.trustLevel == Some("untrusted"))
    || (reason == "location_trust_unknown" && copy.trustLevel != Some("trusted") && copy.trustLevel != Some("untrusted"))
    || (reason == "site_unknown" && copy.siteId.None?)
    || (reason == "site_inactive" && copy.siteId.Some? && copy.siteStatus != Some("active"))
  }

  ghost predicate IsDeviceReason(copy: CopyFact, reason: string) {
    || (reason == "archive_root_inactive" && copy.archiveRootStatus != Some("active"))
    || (reason == "archive_root_device_mismatch" && copy.archiveRootDeviceId != copy.deviceId)
    || (reason == "device_inactive" && copy.deviceStatus != Some("active"))
    || (reason == "device_identity_unconfirmed" && copy.deviceIdentityState != Some("confirmed"))
    || (reason == "device_fingerprint_not_matched" && copy.lastFingerprintStatus != Some("match"))
  }

  predicate Tells(item: Item, now: nat, reason: string) {
    match item
    case Static(findings) => reason in Reasons(findings)
    case Timed(c) => FreshnessAt(c, now).Stale? && FreshnessAt(c, now).reason == reason
  }

  lemma ReasonJoins(a: seq<Finding>, b: seq<Finding>, reason: string)
    ensures reason in Reasons(a + b) <==> reason in Reasons(a) || reason in Reasons(b)
  {
    ReasonsAppend(a, b);
  }

  lemma NoteReason(found: bool, text: string, uncertain: bool, reason: string)
    ensures reason in Reasons(Note(found, text, uncertain)) <==> found && reason == text
  {
    if found { assert Reasons(Note(found, text, uncertain))[0] == text; }
  }

  lemma {:induction false} PlanTells(plan: seq<Item>, now: nat, reason: string)
    requires RunPlan(plan, now).Ok?
    ensures reason in Reasons(RunPlan(plan, now).value.findings) <==> exists i :: 0 <= i < |plan| && Tells(plan[i], now, reason)
  {
    hide Reasons, FreshnessAt;
    if |plan| == 0 {
      NoteReason(false, "", false, reason);
    } else {
      var init, last := plan[..|plan| - 1], plan[|plan| - 1];
      PlanTells(init, now, reason);
      var before := RunPlan(init, now).value.findings;
      match last {
        case Static(findings) => ReasonJoins(before, findings, reason);
        case Timed(c) =>
          if FreshnessAt(c, now).Stale? {
            ReasonJoins(before, [Finding(FreshnessAt(c, now).reason, true)], reason);
            NoteReason(true, FreshnessAt(c, now).reason, true, reason);
          }
      }
      assert forall i :: 0 <= i < |init| ==> init[i] == plan[i];
      if Tells(last, now, reason) { assert Tells(plan[|plan| - 1], now, reason); }
    }
  }

  lemma FiveReasons(a: seq<Finding>, b: seq<Finding>, c: seq<Finding>, d: seq<Finding>, e: seq<Finding>, reason: string)
    ensures reason in Reasons(a + b + c + d + e) <==>
            || reason in Reasons(a) || reason in Reasons(b) || reason in Reasons(c) || reason in Reasons(d) || reason in Reasons(e)
  {
    hide Reasons;
    ReasonJoins(a, b, reason);
    ReasonJoins(a + b, c, reason);
    ReasonJoins(a + b + c, d, reason);
    ReasonJoins(a + b + c + d, e, reason);
  }

  lemma IdentityReasons(copy: CopyFact, file: FileFact, reason: string)
    ensures reason in Reasons(IdentityFindings(copy, file)) <==>
            || (reason == "object_identity_mismatch" && copy.objectId != file.objectId)
            || (reason == "copy_state_" + copy.state && copy.state != "present")
            || (reason == "verification_missing" && copy.lastVerificationResult.None?)
            || (copy.lastVerificationResult.Some? && copy.lastVerificationResult.value != "ok"
                && reason == "verification_" + copy.lastVerificationResult.value)
  {
    hide Reasons, Note;
    var a := Note(copy.objectId != file.objectId, "object_identity_mismatch", false);
    var b := Note(copy.state != "present", "copy_state_" + copy.state, false);
    NoteReason(copy.objectId != file.objectId, "object_identity_mismatch", false, reason);
    NoteReason(copy.state != "present", "copy_state_" + copy.state, false, reason);
    ReasonJoins(a, b, reason);
    match copy.lastVerificationResult
    case None =>
      ReasonJoins(a + b, [Finding("verification_missing", true)], reason);
      OneReason("verification_missing", true, reason);
    case Some(result) =>
      ReasonJoins(a + b, Note(result != "ok", "verification_" + result, false), reason);
      NoteReason(result != "ok", "verification_" + result, false, reason);
  }

  lemma OneReason(text: string, uncertain: bool, reason: string)
    ensures reason in Reasons([Finding(text, uncertain)]) <==> reason == text
  {
    NoteReason(true, text, uncertain, reason);
  }

  lemma PlaceReasons(copy: CopyFact, reason: string)
    ensures reason in Reasons(PlaceFindings(copy)) <==> IsPlaceReason(copy, reason)
  {
    hide Reasons, Note;
    NoteReason(copy.locationStatus != "active", "location_inactive", false, reason);
    NoteReason(copy.trustLevel == Some("untrusted"), "location_untrusted", false, reason);
    NoteReason(copy.trustLevel != Some("untrusted") && copy.trustLevel != Some("trusted"), "location_trust_unknown", true, reason);
    NoteReason(copy.siteId.Some? && copy.siteStatus != Some("active"), "site_inactive", false, reason);
    NoteReason(copy.siteId.None?, "site_unknown", true, reason);
    FiveReasons(Note(copy.locationStatus != "active", "location_inactive", false),
                Note(copy.trustLevel == Some("untrusted"), "location_untrusted", false),
                Note(copy.trustLevel != Some("untrusted") && copy.trustLevel != Some("trusted"), "location_trust_unknown", true),
                Note(copy.siteId.Some? && copy.siteStatus != Some("active"), "site_inactive", false),
                Note(copy.siteId.None?, "site_unknown", true), reason);
  }

  lemma DeviceReasons(copy: CopyFact, reason: string)
    ensures reason in Reasons(DeviceFindings(copy)) <==> IsDeviceReason(copy, reason)
  {
    hide Reasons, Note;
    NoteReason(copy.archiveRootStatus != Some("active"), "archive_root_inactive", false, reason);
    NoteReason(copy.archiveRootDeviceId != copy.deviceId, "archive_root_device_mismatch", true, reason);
    NoteReason(copy.deviceStatus != Some("active"), "device_inactive", false, reason);
    NoteReason(copy.deviceIdentityState != Some("confirmed"), "device_identity_unconfirmed", true, reason);
    NoteReason(copy.lastFingerprintStatus != Some("match"), "device_fingerprint_not_matched", true, reason);
    FiveReasons(Note(copy.archiveRootStatus != Some("active"), "archive_root_inactive", false),
                Note(copy.archiveRootDeviceId != copy.deviceId, "archive_root_device_mismatch", true),
                Note(copy.deviceStatus != Some("active"), "device_inactive", false),
                Note(copy.deviceIdentityState != Some("confirmed"), "device_identity_unconfirmed", true),
                Note(copy.lastFingerprintStatus != Some("match"), "device_fingerprint_not_matched", true), reason);
  }

  lemma EncryptionReasons(copy: CopyFact, file: FileFact, r: PolicyRequirements, reason: string)
    ensures reason in Reasons(EncryptionFindings(copy, file, r)) <==>
            r.requireEncryptedOffsite && Offsite(copy, file) && (
              || (reason == "offsite_copy_unencrypted" && copy.encryptionState == Some("unencrypted"))
              || (reason == "offsite_encryption_unknown"
                  && copy.encryptionState != Some("encrypted") && copy.encryptionState != Some("unencrypted")))
  {
    OneReason("offsite_copy_unencrypted", false, reason);
    OneReason("offsite_encryption_unknown", true, reason);
  }

  lemma TimeReasons(c: Check, now: nat, reason: string)
    requires !FreshnessAt(c, now).Overflow?
    ensures Tells(Timed(c), now, reason) <==> TimeReason(c.timestamp, c.maxAgeDays, now, c.name, reason)
  {
  }

  /** The reasons an assessment gives are exactly those. */
  lemma ReasonsExactly(copy: CopyFact, file: FileFact, r: PolicyRequirements, topology: Assignments, now: nat, reason: string)
    requires Assessed(copy, file, r, topology, now).Ok?
    ensures reason in Assessed(copy, file, r, topology, now).value.reasons <==> IsReason(copy, file, r, now, reason)
  {
    hide Plan, RunPlan, Qualify, Offsite, FreshnessAt, Current, AnyUncertain, Reasons, TimeReason, IsPlaceReason, IsDeviceReason,
         IdentityFindings, PlaceFindings, DeviceFindings, EncryptionFindings, Note;
    var plan := Plan(copy, file, r);
    PlanTells(plan, now, reason);
    PlanParts(copy, file, r);
    TimedParts(copy, file, r, now);
    IdentityReasons(copy, file, reason);
    PlaceReasons(copy, reason);
    DeviceReasons(copy, reason);
    EncryptionReasons(copy, file, r, reason);
    NoteReason(copy.locationKind != "service", "location_kind_unknown", true, reason);
    TimeReasons(plan[1].check, now, reason);
    TimeReasons(plan[2].check, now, reason);
    if copy.locationKind == "filesystem" {
      TimeReasons(plan[5].check, now, reason);
      TimeReasons(plan[6].check, now, reason);
    }
    if i :| 0 <= i < |plan| && Tells(plan[i], now, reason) {
    } else {
      assert !Tells(plan[0], now, reason) && !Tells(plan[1], now, reason) && !Tells(plan[2], now, reason);
      assert !Tells(plan[3], now, reason) && !Tells(plan[4], now, reason) && !Tells(plan[|plan| - 1], now, reason);
      if copy.locationKind == "filesystem" { assert !Tells(plan[5], now, reason) && !Tells(plan[6], now, reason); }
    }
  }

  // ----- how long an assessment holds -----

  lemma {:induction false} PlanExpires(plan: seq<Item>, now: nat)
    requires RunPlan(plan, now).Ok?
    ensures var until := RunPlan(plan, now).value.validUntil;
            && (until.Some? ==> exists i :: 0 <= i < |plan| && plan[i].Timed? && FreshnessAt(plan[i].check, now) == Fresh(until.value))
            && forall i :: 0 <= i < |plan| && plan[i].Timed? && FreshnessAt(plan[i].check, now).Fresh? ==>
                 until.Some? && until.value <= FreshnessAt(plan[i].check, now).expiry
  {
    hide FreshnessAt;
    if |plan| > 0 {
      var init, last := plan[..|plan| - 1], plan[|plan| - 1];
      PlanExpires(init, now);
      assert forall i :: 0 <= i < |init| ==> init[i] == plan[i];
      assert last == plan[|plan| - 1];
    }
  }

  /** It holds until the first of the times it rests on expires. */
  lemma ExpiresExactly(copy: CopyFact, file: FileFact, r: PolicyRequirements, now: nat)
    requires RunPlan(Plan(copy, file, r), now).Ok?
    ensures var until := RunPlan(Plan(copy, file, r), now).value.validUntil;
            && (until.Some? ==> ExpiresAt(copy, r, now, until.value))
            && forall expiry :: ExpiresAt(copy, r, now, expiry) ==> until.Some? && until.value <= expiry
  {
    hide Plan, RunPlan, FreshnessAt, Current, IdentityFindings, PlaceFindings, DeviceFindings, EncryptionFindings, Note;
    var plan := Plan(copy, file, r);
    PlanExpires(plan, now);
    PlanParts(copy, file, r);
    TimedParts(copy, file, r, now);
    FreshnessMeans(plan[1].check, now);
    FreshnessMeans(plan[2].check, now);
    assert plan[1].Timed? && plan[2].Timed?;
    if copy.locationKind == "filesystem" {
      FreshnessMeans(plan[5].check, now);
      FreshnessMeans(plan[6].check, now);
      assert plan[5].Timed? && plan[6].Timed?;
    }
  }

  // ----- what a counting copy counts for -----

  /** A loss domain holds a copy: its device, or its service; its site; or a custom domain that its
      location, archive root, device or site is assigned to. */
  ghost predicate LiesIn(copy: CopyFact, topology: Assignments, domain: Domain) {
    match domain
    case Device(id) => copy.deviceId == Some(id)
    case Service(id) => copy.deviceId.None? && copy.locationId == id
    case Site(id) => copy.siteId == Some(id)
    case Risk(id) =>
      || Assigned(topology, LocationEntity, Some(copy.locationId), id) || Assigned(topology, ArchiveRootEntity, copy.archiveRootId, id)
      || Assigned(topology, DeviceEntity, copy.deviceId, id) || Assigned(topology, SiteEntity, copy.siteId, id)
  }

  ghost predicate Assigned(topology: Assignments, kind: EntityType, entity: Option<string>, id: string) {
    entity.Some? && (kind, entity.value) in topology && id in topology[(kind, entity.value)]
  }

  /** What is recorded of a copy that counts. */
  ghost predicate Records(q: QualifiedCopy, copy: CopyFact, file: FileFact, topology: Assignments) {
    && q.copyClaimId == copy.copyClaimId && q.locationId == copy.locationId && q.deviceId == copy.deviceId
    && copy.siteId == Some(q.siteId) && (q.offsite <==> q.siteId != file.homeSiteId)
    && (q.offline <==> copy.locationExpectedAvailability == "offline" || copy.deviceExpectedAvailability == Some("offline"))
    && (q.encrypted <==> copy.encryptionState == Some("encrypted"))
    && forall domain :: domain in q.domains <==> LiesIn(copy, topology, domain)
  }

  lemma RisksAre(copy: CopyFact, topology: Assignments, kind: EntityType, entity: Option<string>)
    ensures forall domain :: domain in RisksOf(topology, kind, entity) <==> domain.Risk? && Assigned(topology, kind, entity, domain.id)
  {
  }

  lemma CountsAs(copy: CopyFact, file: FileFact, r: PolicyRequirements, topology: Assignments, now: nat)
    requires Assessed(copy, file, r, topology, now).Ok? && Qualifies(copy, file, r, now)
    ensures Assessed(copy, file, r, topology, now).value.qualified.Some?
    ensures Records(Assessed(copy, file, r, topology, now).value.qualified.value, copy, file, topology)
  {
    hide Plan, RunPlan, RisksOf, Assigned;
    QualifiesExactly(copy, file, r, topology, now);
    RisksAre(copy, topology, LocationEntity, Some(copy.locationId));
    RisksAre(copy, topology, ArchiveRootEntity, copy.archiveRootId);
    RisksAre(copy, topology, DeviceEntity, copy.deviceId);
    RisksAre(copy, topology, SiteEntity, copy.siteId);
  }

  // ----- one file -----

  /** The copies of a file that count, by their place in its list. */
  ghost function Counting(copies: seq<CopyFact>, file: FileFact, r: PolicyRequirements, now: nat): set<nat> {
    set i: nat | i < |copies| && Qualifies(copies[i], file, r, now)
  }

  ghost predicate Disqualifies(n: Nonqualifying, copy: CopyFact, file: FileFact, r: PolicyRequirements, now: nat) {
    && n.copyClaimId == copy.copyClaimId && n.locationId == copy.locationId
    && (n.uncertain <==> Doubtful(copy, file, r, now))
    && forall reason :: reason in n.reasons <==> IsReason(copy, file, r, now, reason)
  }

  lemma CountingNext(copies: seq<CopyFact>, file: FileFact, r: PolicyRequirements, now: nat)
    requires |copies| > 0
    ensures var init, last := copies[..|copies| - 1], |copies| - 1;
            && Counting(copies, file, r, now) ==
                 Counting(init, file, r, now) + (if Qualifies(copies[last], file, r, now) then {last} else {})
            && last !in Counting(init, file, r, now)
  {
    hide Qualifies;
    assert forall i: nat :: i < |copies| - 1 ==> copies[..|copies| - 1][i] == copies[i];
  }

  lemma DoubtfulDoesNotCount(copy: CopyFact, file: FileFact, r: PolicyRequirements, now: nat)
    requires Qualifies(copy, file, r, now)
    ensures !Doubtful(copy, file, r, now)
  {
  }

  /** One more copy is recorded among those that count, or among the others with its reasons. */
  lemma RecordedNext(exam: Exam, copy: CopyFact, file: FileFact, r: PolicyRequirements, topology: Assignments, now: nat)
    requires Assessed(copy, file, r, topology, now).Ok?
    ensures var a := Assessed(copy, file, r, topology, now).value;
            var next := AddAssessment(exam, copy, a, RunPlan(Plan(copy, file, r), now).value.validUntil);
            if Qualifies(copy, file, r, now) then
              && a.qualified.Some? && Records(a.qualified.value, copy, file, topology)
              && next.qualified == exam.qualified + [a.qualified.value] && next.nonqualifying == exam.nonqualifying
            else
              && next.qualified == exam.qualified && |next.nonqualifying| == |exam.nonqualifying| + 1
              && next.nonqualifying[..|exam.nonqualifying|] == exam.nonqualifying
              && Disqualifies(next.nonqualifying[|exam.nonqualifying|], copy, file, r, now)
  {
    hide Assessed, RunPlan, Plan, Qualifies, Doubtful, IsReason, Records, MinTime;
    QualifiesExactly(copy, file, r, topology, now);
    DoubtfulExactly(copy, file, r, topology, now);
    if Qualifies(copy, file, r, now) { CountsAs(copy, file, r, topology, now); }
    forall reason
      ensures reason in Assessed(copy, file, r, topology, now).value.reasons <==> IsReason(copy, file, r, now, reason)
    {
      ReasonsExactly(copy, file, r, topology, now, reason);
    }
  }

  /** The places of the copies that count, or of those that do not, in order. */
  ghost function Places(copies: seq<CopyFact>, file: FileFact, r: PolicyRequirements, now: nat, count: bool): seq<nat> {
    if |copies| == 0 then []
    else Places(copies[..|copies| - 1], file, r, now, count)
         + if Qualifies(copies[|copies| - 1], file, r, now) == count then [|copies| - 1] else []
  }

  lemma {:induction false} PlacesAre(copies: seq<CopyFact>, file: FileFact, r: PolicyRequirements, now: nat, count: bool)
    ensures forall i: nat :: i in Places(copies, file, r, now, count) <==> i < |copies| && Qualifies(copies[i], file, r, now) == count
  {
    hide Qualifies;
    if |copies| > 0 {
      var init := copies[..|copies| - 1];
      PlacesAre(init, file, r, now, count);
      var before, places := Places(init, file, r, now, count), Places(copies, file, r, now, count);
      forall i: nat ensures i in places <==> i < |copies| && Qualifies(copies[i], file, r, now) == count {
        assert i < |init| ==> init[i] == copies[i];
        assert i in places <==> i in before || (i == |init| && Qualifies(copies[i], file, r, now) == count);
      }
    }
  }

  lemma {:induction false} PlacesCount(copies: seq<CopyFact>, file: FileFact, r: PolicyRequirements, now: nat)
    ensures |Places(copies, file, r, now, true)| == |Counting(copies, file, r, now)|
    ensures |Places(copies, file, r, now, true)| + |Places(copies, file, r, now, false)| == |copies|
  {
    hide Qualifies, Counting;
    if |copies| == 0 {
      NoCopies(file, r, now);
    } else {
      PlacesCount(copies[..|copies| - 1], file, r, now);
      CountingNext(copies, file, r, now);
    }
  }

  lemma NoCopies(file: FileFact, r: PolicyRequirements, now: nat)
    ensures Counting([], file, r, now) == {}
  {
  }

  /** The qualifying copies of an examination are, in order, exactly those that count. */
  ghost predicate ExaminedAs(exam: Exam, copies: seq<CopyFact>, file: FileFact, r: PolicyRequirements, topology: Assignments, now: nat) {
    var places, others := Places(copies, file, r, now, true), Places(copies, file, r, now, false);
    && |exam.qualified| == |places| && |exam.nonqualifying| == |others|
    && (forall k :: 0 <= k < |places| ==> places[k] < |copies| && Records(exam.qualified[k], copies[places[k]], file, topology))
    && (forall k :: 0 <= k < |others| ==>
          others[k] < |copies| && Disqualifies(exam.nonqualifying[k], copies[others[k]], file, r, now))
  }

  /** Exactly the copies that count are recorded as qualifying, the others with their reasons. */
  lemma {:induction false} ExaminedExactly(copies: seq<CopyFact>, file: FileFact, r: PolicyRequirements, topology: Assignments, now: nat)
    requires Examine(copies, file, r, topology, now).Ok?
    ensures ExaminedAs(Examine(copies, file, r, topology, now).value, copies, file, r, topology, now)
  {
    hide Assessed, RunPlan, Plan, Qualifies, Records, Disqualifies, AddAssessment;
    if |copies| > 0 {
      var init, last := copies[..|copies| - 1], copies[|copies| - 1];
      ExaminedExactly(init, file, r, topology, now);
      RecordedNext(Examine(init, file, r, topology, now).value, last, file, r, topology, now);
      assert forall i: nat :: i < |init| ==> init[i] == copies[i];
    }
  }

  /** Every qualifying copy recorded is one that counts, and every one that counts is recorded. */
  ghost predicate Counts(q: seq<QualifiedCopy>, copies: seq<CopyFact>, counting: set<nat>, file: FileFact, topology: Assignments) {
    && |q| == |counting|
    && (forall c :: c in q ==> exists i :: i in counting && i < |copies| && Records(c, copies[i], file, topology))
    && (forall i :: i in counting ==> i < |copies| && exists c :: c in q && Records(c, copies[i], file, topology))
  }

  lemma ExaminedCounts(exam: Exam, copies: seq<CopyFact>, file: FileFact, r: PolicyRequirements, topology: Assignments, now: nat)
    requires ExaminedAs(exam, copies, file, r, topology, now)
    ensures Counts(exam.qualified, copies, Counting(copies, file, r, now), file, topology)
  {
    hide Qualifies, Records, Disqualifies, Places;
    PlacesAre(copies, file, r, now, true);
    PlacesCount(copies, file, r, now);
    var q, places := exam.qualified, Places(copies, file, r, now, true);
    forall c | c in q ensures exists i :: i in Counting(copies, file, r, now) && i < |copies| && Records(c, copies[i], file, topology) {
      var k :| 0 <= k < |q| && q[k] == c;
      assert places[k] in places;
    }
    forall i | i in Counting(copies, file, r, now) ensures exists c :: c in q && Records(c, copies[i], file, topology) {
      var k :| 0 <= k < |places| && places[k] == i;
      assert q[k] in q;
    }
  }

  ghost function DevicesOf(copies: seq<CopyFact>, counting: set<nat>): set<string> {
    set i | i in counting && i < |copies| && copies[i].deviceId.Some? :: copies[i].deviceId.value
  }

  ghost function SitesOf(copies: seq<CopyFact>, counting: set<nat>): set<string> {
    set i | i in counting && i < |copies| && copies[i].siteId.Some? :: copies[i].siteId.value
  }

  ghost predicate Offline(copy: CopyFact) {
    copy.locationExpectedAvailability == "offline" || copy.deviceExpectedAvailability == Some("offline")
  }

  /** Some copy that counts is kept away from home, or offline, or encrypted away from home. */
  ghost predicate SomeAway(copies: seq<CopyFact>, counting: set<nat>, file: FileFact) {
    exists i :: i in counting && i < |copies| && copies[i].siteId != Some(file.homeSiteId)
  }

  ghost predicate SomeOffline(copies: seq<CopyFact>, counting: set<nat>) {
    exists i :: i in counting && i < |copies| && Offline(copies[i])
  }

  ghost predicate SomeEncryptedAway(copies: seq<CopyFact>, counting: set<nat>, file: FileFact) {
    exists i :: i in counting && i < |copies| && copies[i].siteId != Some(file.homeSiteId)
                && copies[i].encryptionState == Some("encrypted")
  }

  lemma CountedAs(q: seq<QualifiedCopy>, copies: seq<CopyFact>, counting: set<nat>, file: FileFact, topology: Assignments)
    requires Counts(q, copies, counting, file, topology)
    ensures DeviceIds(q) == DevicesOf(copies, counting) && SiteIds(q) == SitesOf(copies, counting)
    ensures HasOffsite(q) <==> SomeAway(copies, counting, file)
    ensures HasOffline(q) <==> SomeOffline(copies, counting)
    ensures HasEncryptedOffsite(q) <==> SomeEncryptedAway(copies, counting, file)
  {
    hide LiesIn, Counts;
    forall c | c in q
      ensures c.deviceId.Some? ==> c.deviceId.value in DevicesOf(copies, counting)
      ensures c.siteId in SitesOf(copies, counting)
      ensures c.offsite ==> SomeAway(copies, counting, file)
      ensures c.offline ==> SomeOffline(copies, counting)
      ensures c.offsite && c.encrypted ==> SomeEncryptedAway(copies, counting, file)
    {
      var i := PlaceOf(q, copies, counting, file, topology, c);
    }
    forall i | i in counting && i < |copies|
      ensures copies[i].deviceId.Some? ==> copies[i].deviceId.value in DeviceIds(q)
      ensures copies[i].siteId.Some? && copies[i].siteId.value in SiteIds(q)
      ensures copies[i].siteId != Some(file.homeSiteId) ==> HasOffsite(q)
      ensures Offline(copies[i]) ==> HasOffline(q)
      ensures copies[i].siteId != Some(file.homeSiteId) && copies[i].encryptionState == Some("encrypted") ==> HasEncryptedOffsite(q)
    {
      var c := RecordOfPlace(q, copies, counting, file, topology, i);
    }
  }

  lemma SameSize(q: seq<QualifiedCopy>, copies: seq<CopyFact>, counting: set<nat>, file: FileFact, topology: Assignments)
    requires Counts(q, copies, counting, file, topology)
    ensures |q| == |counting|
  {
  }

  lemma PlaceOf(q: seq<QualifiedCopy>, copies: seq<CopyFact>, counting: set<nat>, file: FileFact, topology: Assignments, c: QualifiedCopy)
    returns (i: nat)
    requires Counts(q, copies, counting, file, topology) && c in q
    ensures i in counting && i < |copies| && Records(c, copies[i], file, topology)
  {
    hide Records;
    i :| i in counting && i < |copies| && Records(c, copies[i], file, topology);
  }

  lemma RecordOfPlace(q: seq<QualifiedCopy>, copies: seq<CopyFact>, counting: set<nat>, file: FileFact, topology: Assignments, i: nat)
    returns (c: QualifiedCopy)
    requires Counts(q, copies, counting, file, topology) && i in counting
    ensures i < |copies| && c in q && Records(c, copies[i], file, topology)
  {
    hide Records;
    c :| c in q && Records(c, copies[i], file, topology);
  }

  /** What a policy asks of the copies that count. */
  ghost predicate Enough(copies: seq<CopyFact>, counting: set<nat>, file: FileFact, r: PolicyRequirements) {
    && |counting| >= r.minQualifyingCopies
    && |DevicesOf(copies, counting)| >= r.minDevices && |SitesOf(copies, counting)| >= r.minSites
    && (r.requireOffsiteCopy ==> SomeAway(copies, counting, file))
    && (r.requireOfflineCopy ==> SomeOffline(copies, counting))
    && (r.requireEncryptedOffsite ==> SomeEncryptedAway(copies, counting, file))
  }

  /** A copy that counts lies outside the domain. */
  ghost predicate Outlives(copies: seq<CopyFact>, counting: set<nat>, topology: Assignments, domain: Domain) {
    exists i :: i in counting && i < |copies| && !LiesIn(copies[i], topology, domain)
  }

  /** No single loss takes all the copies that count. */
  ghost predicate Spread(copies: seq<CopyFact>, counting: set<nat>, topology: Assignments) {
    counting != {} ==> forall domain :: Outlives(copies, counting, topology, domain)
  }

  /** The content of the file is known. */
  ghost predicate Identified(file: FileFact) {
    file.identityState == "resolved" && file.objectId.Some? && file.hashAlgo == Some("blake3")
  }

  lemma SpreadExactly(q: seq<QualifiedCopy>, copies: seq<CopyFact>, counting: set<nat>, file: FileFact, topology: Assignments)
    requires Counts(q, copies, counting, file, topology)
    ensures SurvivesAnyLoss(q) <==> Spread(copies, counting, topology)
  {
    hide LiesIn, Counts;
    forall domain ensures Survives(q, domain) <==> Outlives(copies, counting, topology, domain) {
      if c :| c in q && domain !in c.domains { var i := PlaceOf(q, copies, counting, file, topology, c); }
      if i :| i in counting && i < |copies| && !LiesIn(copies[i], topology, domain) {
        var c := RecordOfPlace(q, copies, counting, file, topology, i);
      }
    }
    assert |q| > 0 <==> counting != {} by { SameSize(q, copies, counting, file, topology); }
  }

  /** The verdict, from the facts alone: a file is satisfied when its content is known, the copies that count
      are enough, and no single loss takes them all; otherwise it is uncertain as long as its identity or one
      of the copies is in doubt. */
  lemma VerdictExactly(file: FileFact, r: PolicyRequirements, topology: Assignments, now: nat)
    requires Evaluate(file, r, topology, now).Ok?
    ensures var verdict, counting := Evaluate(file, r, topology, now).value.verdict, Counting(file.copies, file, r, now);
            var sound := Enough(file.copies, counting, file, r) && Spread(file.copies, counting, topology);
            var inDoubt := !Identified(file) || exists i: nat :: i < |file.copies| && Doubtful(file.copies[i], file, r, now);
            && (verdict == Satisfied <==> Identified(file) && sound)
            && (verdict == Uncertain <==> !(Identified(file) && sound) && inDoubt)
  {
    hide Qualifies, Doubtful, Enough, Spread, Meets, SurvivesAnyLoss, Examine, ExaminedAs, FailedRequirements, PermanentLoss,
         HasUncertain, Counting, LossScenarios, Unidentified;
    SatisfiedExactly(file, r, topology, now);
    if IdentityUsable(file) {
      var exam := Examine(file.copies, file, r, topology, now).value;
      var counting := Counting(file.copies, file, r, now);
      ExaminedExactly(file.copies, file, r, topology, now);
      ExaminedCounts(exam, file.copies, file, r, topology, now);
      EnoughExactly(exam.qualified, file.copies, counting, file, r, topology);
      SpreadExactly(exam.qualified, file.copies, counting, file, topology);
      DoubtExactly(exam, file.copies, file, r, topology, now);
      RequirementsExact(exam.qualified, r);
      LossSimulationExact(exam.qualified);
    }
  }

  lemma EnoughExactly(q: seq<QualifiedCopy>, copies: seq<CopyFact>, counting: set<nat>, file: FileFact, r: PolicyRequirements,
                      topology: Assignments)
    requires Counts(q, copies, counting, file, topology)
    ensures Meets(q, r) <==> Enough(copies, counting, file, r)
  {
    hide Records, DeviceIds, SiteIds, HasOffsite, HasOffline, HasEncryptedOffsite, SomeAway, SomeOffline, SomeEncryptedAway;
    CountedAs(q, copies, counting, file, topology);
  }

  /** Some nonqualifying copy is uncertain exactly when some copy is in doubt. */
  lemma DoubtExactly(exam: Exam, copies: seq<CopyFact>, file: FileFact, r: PolicyRequirements, topology: Assignments, now: nat)
    requires ExaminedAs(exam, copies, file, r, topology, now)
    ensures HasUncertain(exam.nonqualifying) <==> exists i: nat :: i < |copies| && Doubtful(copies[i], file, r, now)
  {
    hide Qualifies, Doubtful, Records, Places, IsReason;
    PlacesAre(copies, file, r, now, false);
    var n, others := exam.nonqualifying, Places(copies, file, r, now, false);
    if HasUncertain(n) {
      var k :| 0 <= k < |n| && n[k].uncertain;
      assert Doubtful(copies[others[k]], file, r, now);
    }
    if i: nat :| i < |copies| && Doubtful(copies[i], file, r, now) {
      if Qualifies(copies[i], file, r, now) {
        DoubtfulDoesNotCount(copies[i], file, r, now);
      } else {
        var k :| 0 <= k < |others| && others[k] == i;
        assert n[k].uncertain;
      }
    }
  }

  // ----- the rest of an evaluation -----

  /** The copies an evaluation counts; none while the content of the file is not known. */
  ghost function Counted(file: FileFact, r: PolicyRequirements, now: nat): set<nat> {
    if Identified(file) then Counting(file.copies, file, r, now) else {}
  }

  lemma EvaluationCounts(file: FileFact, r: PolicyRequirements, topology: Assignments, now: nat)
    requires Evaluate(file, r, topology, now).Ok?
    ensures Counts(Evaluate(file, r, topology, now).value.qualified, file.copies, Counted(file, r, now), file, topology)
  {
    hide Examine, ExaminedAs, Counting, LossScenarios, FailedRequirements, VerdictOf, Records;
    if IdentityUsable(file) {
      ExaminedExactly(file.copies, file, r, topology, now);
      ExaminedCounts(Examine(file.copies, file, r, topology, now).value, file.copies, file, r, topology, now);
    }
  }

  /** Which copies an evaluation lists, where, and with which reasons. */
  lemma ListedExactly(file: FileFact, r: PolicyRequirements, topology: Assignments, now: nat)
    requires Evaluate(file, r, topology, now).Ok?
    ensures var e := Evaluate(file, r, topology, now).value;
            if Identified(file) then ExaminedAs(Exam(e.qualified, e.nonqualifying, e.validUntil), file.copies, file, r, topology, now)
            else
              && e.qualified == [] && |e.nonqualifying| == |file.copies|
              && forall i :: 0 <= i < |file.copies| ==>
                   e.nonqualifying[i] == Nonqualifying(file.copies[i].copyClaimId, file.copies[i].locationId,
                                                       ["file_identity_not_resolved_to_blake3"], true)
  {
    hide Examine, ExaminedAs, LossScenarios, FailedRequirements, VerdictOf;
    if IdentityUsable(file) { ExaminedExactly(file.copies, file, r, topology, now); }
  }

  /** What a policy asks and the copies that count do not give. */
  ghost predicate Lacking(requirement: Requirement, copies: seq<CopyFact>, counting: set<nat>, file: FileFact, r: PolicyRequirements) {
    match requirement
    case MinQualifyingCopies(required, actual) => actual == |counting| < required == r.minQualifyingCopies
    case MinDevices(required, actual) => actual == |DevicesOf(copies, counting)| < required == r.minDevices
    case MinSites(required, actual) => actual == |SitesOf(copies, counting)| < required == r.minSites
    case RequireOffsiteCopy => r.requireOffsiteCopy && !SomeAway(copies, counting, file)
    case RequireOfflineCopy => r.requireOfflineCopy && !SomeOffline(copies, counting)
    case RequireEncryptedOffsite => r.requireEncryptedOffsite && !SomeEncryptedAway(copies, counting, file)
  }

  /** Exactly those requirements are reported as failed. */
  lemma FailedExactly(file: FileFact, r: PolicyRequirements, topology: Assignments, now: nat, requirement: Requirement)
    requires Evaluate(file, r, topology, now).Ok?
    ensures requirement in Evaluate(file, r, topology, now).value.failed <==>
            Lacking(requirement, file.copies, Counted(file, r, now), file, r)
  {
    hide Examine, Counted, LossScenarios, FailedRequirements, VerdictOf, Counts, DevicesOf, SitesOf, SomeAway, SomeOffline,
         SomeEncryptedAway, Lacking;
    var q := Evaluate(file, r, topology, now).value.qualified;
    EvaluationCounts(file, r, topology, now);
    SameSize(q, file.copies, Counted(file, r, now), file, topology);
    CountedAs(q, file.copies, Counted(file, r, now), file, topology);
    RequirementListed(q, file.copies, Counted(file, r, now), file, r, requirement);
  }

  lemma RequirementListed(q: seq<QualifiedCopy>, copies: seq<CopyFact>, counting: set<nat>, file: FileFact, r: PolicyRequirements,
                          requirement: Requirement)
    requires |q| == |counting| && DeviceIds(q) == DevicesOf(copies, counting) && SiteIds(q) == SitesOf(copies, counting)
    requires (HasOffsite(q) <==> SomeAway(copies, counting, file)) && (HasOffline(q) <==> SomeOffline(copies, counting))
    requires HasEncryptedOffsite(q) <==> SomeEncryptedAway(copies, counting, file)
    ensures requirement in FailedRequirements(q, r) <==> Lacking(requirement, copies, counting, file, r)
  {
    hide DeviceIds, SiteIds, HasOffsite, HasOffline, HasEncryptedOffsite, DevicesOf, SitesOf, SomeAway, SomeOffline, SomeEncryptedAway;
  }

  /** The copies that count and do not lie in the domain. */
  ghost function Outside(copies: seq<CopyFact>, counting: set<nat>, topology: Assignments, domain: Domain): set<nat> {
    set i | i in counting && i < |copies| && !LiesIn(copies[i], topology, domain)
  }

  lemma {:induction false} AffectedAre(q: seq<QualifiedCopy>, domain: Domain)
    ensures forall c :: c in Affected(q, domain) <==> c in q && domain in c.domains
  {
    if |q| > 0 {
      AffectedAre(q[..|q| - 1], domain);
      assert q == q[..|q| - 1] + [q[|q| - 1]];
    }
  }

  lemma OutsideNext(copies: seq<CopyFact>, file: FileFact, r: PolicyRequirements, topology: Assignments, now: nat, domain: Domain)
    requires |copies| > 0
    ensures var init, last := copies[..|copies| - 1], |copies| - 1;
            && Outside(copies, Counting(copies, file, r, now), topology, domain) ==
                 Outside(init, Counting(init, file, r, now), topology, domain)
                 + (if Qualifies(copies[last], file, r, now) && !LiesIn(copies[last], topology, domain) then {last} else {})
            && last !in Outside(init, Counting(init, file, r, now), topology, domain)
  {
    hide Qualifies, LiesIn;
    assert forall i: nat :: i < |copies| - 1 ==> copies[..|copies| - 1][i] == copies[i];
  }

  lemma {:induction false} RemainingIs(copies: seq<CopyFact>, file: FileFact, r: PolicyRequirements, topology: Assignments, now: nat,
                                       domain: Domain)
    requires Examine(copies, file, r, topology, now).Ok?
    ensures var q := Examine(copies, file, r, topology, now).value.qualified;
            |q| - |Affected(q, domain)| == |Outside(copies, Counting(copies, file, r, now), topology, domain)|
  {
    hide Assessed, RunPlan, Plan, Qualifies, LiesIn, AddAssessment, Counting, Outside, Disqualifies;
    if |copies| == 0 {
      NothingOutside(file, r, topology, now, domain);
    } else {
      var init, last := copies[..|copies| - 1], copies[|copies| - 1];
      var before := Examine(init, file, r, topology, now).value;
      RemainingIs(init, file, r, topology, now, domain);
      RecordedNext(before, last, file, r, topology, now);
      OutsideNext(copies, file, r, topology, now, domain);
      if Qualifies(last, file, r, now) {
        var c := Assessed(last, file, r, topology, now).value.qualified.value;
        assert (before.qualified + [c])[..|before.qualified|] == before.qualified;
      }
    }
  }

  lemma NothingOutside(file: FileFact, r: PolicyRequirements, topology: Assignments, now: nat, domain: Domain)
    ensures Outside([], Counting([], file, r, now), topology, domain) == {}
  {
  }

  /** Every loss domain of a copy that counts is simulated, and no other; a simulated loss is permanent exactly
      when no copy that counts lies outside. */
  lemma LossesExactly(file: FileFact, r: PolicyRequirements, topology: Assignments, now: nat, domain: Domain)
    requires Evaluate(file, r, topology, now).Ok?
    ensures var e, counting := Evaluate(file, r, topology, now).value, Counted(file, r, now);
            && ((exists s :: s in e.scenarios && s.domain == domain) <==>
                exists i :: i in counting && i < |file.copies| && LiesIn(file.copies[i], topology, domain))
            && forall s :: s in e.scenarios && s.domain == domain ==>
                 && s.remaining == |Outside(file.copies, counting, topology, domain)|
                 && (s.permanentLoss <==> Outside(file.copies, counting, topology, domain) == {})
                 && forall c :: c in s.affected <==> c in e.qualified && domain in c.domains
  {
    hide Examine, Counted, FailedRequirements, VerdictOf, Counts, LiesIn, Outside, Affected;
    var q, counting := Evaluate(file, r, topology, now).value.qualified, Counted(file, r, now);
    EvaluationCounts(file, r, topology, now);
    AffectedAre(q, domain);
    RemainingOf(file, r, topology, now, domain);
    if c :| c in q && domain in c.domains {
      var i := PlaceOf(q, file.copies, counting, file, topology, c);
      assert ScenarioOf(q, domain) in LossScenarios(q);
    }
    if i :| i in counting && i < |file.copies| && LiesIn(file.copies[i], topology, domain) {
      var c := RecordOfPlace(q, file.copies, counting, file, topology, i);
    }
  }

  lemma RemainingOf(file: FileFact, r: PolicyRequirements, topology: Assignments, now: nat, domain: Domain)
    requires Evaluate(file, r, topology, now).Ok?
    ensures var q := Evaluate(file, r, topology, now).value.qualified;
            |q| - |Affected(q, domain)| == |Outside(file.copies, Counted(file, r, now), topology, domain)|
  {
    hide Examine, FailedRequirements, VerdictOf, LossScenarios, Counting, LiesIn;
    if IdentityUsable(file) {
      RemainingIs(file.copies, file, r, topology, now, domain);
    }
  }

  /** An evaluation fails exactly when an expiry of one of its copies does not fit. */
  lemma {:induction false} ExamineWhen(copies: seq<CopyFact>, file: FileFact, r: PolicyRequirements, topology: Assignments, now: nat)
    ensures Examine(copies, file, r, topology, now).Ok? <==> forall i :: 0 <= i < |copies| ==> AllFit(copies[i], r, now)
  {
    hide Assessed, RunPlan, Plan, AllFit, AddAssessment;
    if |copies| > 0 {
      var init, last := copies[..|copies| - 1], copies[|copies| - 1];
      ExamineWhen(init, file, r, topology, now);
      AssessedWhen(last, file, r, topology, now);
      assert forall i :: 0 <= i < |init| ==> init[i] == copies[i];
    }
  }

  lemma EvaluateWhen(file: FileFact, r: PolicyRequirements, topology: Assignments, now: nat)
    ensures Evaluate(file, r, topology, now).Ok? <==>
            (Identified(file) ==> forall i :: 0 <= i < |file.copies| ==> AllFit(file.copies[i], r, now))
  {
    hide Examine, AllFit, Evaluation;
    ExamineWhen(file.copies, file, r, topology, now);
  }

  /** The first of the times that any of the copies rests on. */
  ghost predicate FirstExpiry(copies: seq<CopyFact>, r: PolicyRequirements, now: nat, until: Option<nat>) {
    && (until.Some? ==> exists i :: 0 <= i < |copies| && ExpiresAt(copies[i], r, now, until.value))
    && (forall i, expiry :: 0 <= i < |copies| && ExpiresAt(copies[i], r, now, expiry) ==> until.Some? && until.value <= expiry)
  }

  lemma {:induction false} ExamineExpires(copies: seq<CopyFact>, file: FileFact, r: PolicyRequirements, topology: Assignments, now: nat)
    requires Examine(copies, file, r, topology, now).Ok?
    ensures FirstExpiry(copies, r, now, Examine(copies, file, r, topology, now).value.validUntil)
  {
    hide Assessed, RunPlan, Plan, ExpiresAt;
    if |copies| > 0 {
      var init, last := copies[..|copies| - 1], copies[|copies| - 1];
      ExamineExpires(init, file, r, topology, now);
      assert RunPlan(Plan(last, file, r), now).Ok? by { assert Assessed(last, file, r, topology, now).Ok?; }
      ExpiresExactly(last, file, r, now);
      assert forall i :: 0 <= i < |init| ==> init[i] == copies[i];
      assert last == copies[|copies| - 1];
    }
  }

  /** How long an evaluation holds. */
  lemma EvaluationExpires(file: FileFact, r: PolicyRequirements, topology: Assignments, now: nat)
    requires Evaluate(file, r, topology, now).Ok?
    ensures var until := Evaluate(file, r, topology, now).value.validUntil;
            if Identified(file) then FirstExpiry(file.copies, r, now, until) else until == None
  {
    hide Examine, FirstExpiry, VerdictOf, FailedRequirements, LossScenarios;
    if IdentityUsable(file) {
      ExamineExpires(file.copies, file, r, topology, now);
    }
  }
}
