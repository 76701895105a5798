/** The verdict on one file: requirements, loss of any single domain, and how the verdict ages. */
module PolicyEvaluate {
  import opened Wrappers
  import opened PolicyAssess

  datatype Nonqualifying = Nonqualifying(copyClaimId: string, locationId: string, reasons: seq<string>, uncertain: bool)

  datatype Exam = Exam(qualified: seq<QualifiedCopy>, nonqualifying: seq<Nonqualifying>, validUntil: Option<nat>)

  datatype Requirement =
    | MinQualifyingCopies(required: nat, actual: nat)
    | MinDevices(required: nat, actual: nat)
    | MinSites(required: nat, actual: nat)
    | RequireOffsiteCopy | RequireOfflineCopy | RequireEncryptedOffsite

  datatype LossScenario = LossScenario(domain: Domain, affected: seq<QualifiedCopy>, remaining: nat, permanentLoss: bool)

  datatype Verdict = Satisfied | Violated | Uncertain

  datatype FileEvaluation = FileEvaluation(
    verdict: Verdict, qualified: seq<QualifiedCopy>, nonqualifying: seq<Nonqualifying>,
    failed: seq<Requirement>, scenarios: set<LossScenario>, validUntil: Option<nat>)

  predicate IdentityUsable(file: FileFact) {
    file.identityState == "resolved" && file.objectId.Some? && file.hashAlgo == Some("blake3")
  }

  predicate HasUncertain(ns: seq<Nonqualifying>) { exists i :: 0 <= i < |ns| && ns[i].uncertain }

  function AddAssessment(exam: Exam, copy: CopyFact, a: CopyAssessment, validUntil: Option<nat>): Exam {
    if a.qualified.Some? then exam.(qualified := exam.qualified + [a.qualified.value], validUntil := MinTime(exam.validUntil, validUntil))
    else exam.(nonqualifying := exam.nonqualifying + [Nonqualifying(copy.copyClaimId, copy.locationId, a.reasons, a.uncertain)],
               validUntil := MinTime(exam.validUntil, validUntil))
  }

  /** Assessing the copies one after the other. */
  function Examine(copies: seq<CopyFact>, file: FileFact, r: PolicyRequirements, topology: Assignments, now: nat)
    : Result<Exam, PolicyError>
  {
    if |copies| == 0 then Ok(Exam([], [], None))
    else
      var before, last := Examine(copies[..|copies| - 1], file, r, topology, now), copies[|copies| - 1];
      if before.Err? then before
      else
        var a := Assessed(last, file, r, topology, now);
        if a.Err? then Err(a.error)
        else Ok(AddAssessment(before.value, last, a.value, RunPlan(Plan(last, file, r), now).value.validUntil))
  }

  function Unidentified(copies: seq<CopyFact>): seq<Nonqualifying> {
    seq(|copies|, i requires 0 <= i < |copies| =>
      Nonqualifying(copies[i].copyClaimId, copies[i].locationId, ["file_identity_not_resolved_to_blake3"], true))
  }

  function DeviceIds(q: seq<QualifiedCopy>): set<string> { set c | c in q && c.deviceId.Some? :: c.deviceId.value }

  function SiteIds(q: seq<QualifiedCopy>): set<string> { set c | c in q :: c.siteId }

  predicate HasOffsite(q: seq<QualifiedCopy>) { exists c :: c in q && c.offsite }
  predicate HasOffline(q: seq<QualifiedCopy>) { exists c :: c in q && c.offline }
  predicate HasEncryptedOffsite(q: seq<QualifiedCopy>) { exists c :: c in q && c.offsite && c.encrypted }

  function FailedRequirements(q: seq<QualifiedCopy>, r: PolicyRequirements): seq<Requirement> {
    (if |q| < r.minQualifyingCopies then [MinQualifyingCopies(r.minQualifyingCopies, |q|)] else [])
    + (if |DeviceIds(q)| < r.minDevices then [MinDevices(r.minDevices, |DeviceIds(q)|)] else [])
    + (if |SiteIds(q)| < r.minSites then [MinSites(r.minSites, |SiteIds(q)|)] else [])
    + (if r.requireOffsiteCopy && !HasOffsite(q) then [RequireOffsiteCopy] else [])
    + (if r.requireOfflineCopy && !HasOffline(q) then [RequireOfflineCopy] else [])
    + (if r.requireEncryptedOffsite && !HasEncryptedOffsite(q) then [RequireEncryptedOffsite] else [])
  }

  function AllDomains(q: seq<QualifiedCopy>): set<Domain> { set c, dm | c in q && dm in c.domains :: dm }

  function Affected(q: seq<QualifiedCopy>, domain: Domain): seq<QualifiedCopy> {
    if |q| == 0 then []
    else Affected(q[..|q| - 1], domain) + if domain in q[|q| - 1].domains then [q[|q| - 1]] else []
  }

  /** What is left when everything in `domain` is lost. */
  function ScenarioOf(q: seq<QualifiedCopy>, domain: Domain): LossScenario {
    var affected := Affected(q, domain);
    var remaining := if |affected| <= |q| then |q| - |affected| else 0;
    LossScenario(domain, affected, remaining, |q| > 0 && remaining == 0)
  }

  function LossScenarios(q: seq<QualifiedCopy>): set<LossScenario> { set dm | dm in AllDomains(q) :: ScenarioOf(q, dm) }

  predicate PermanentLoss(q: seq<QualifiedCopy>) { exists s :: s in LossScenarios(q) && s.permanentLoss }

  function VerdictOf(identityUsable: bool, exam: Exam, r: PolicyRequirements): Verdict {
    if |FailedRequirements(exam.qualified, r)| > 0 || PermanentLoss(exam.qualified) || !identityUsable then
      if HasUncertain(exam.nonqualifying) || !identityUsable then Uncertain else Violated
    else Satisfied
  }

  function Evaluation(identityUsable: bool, exam: Exam, r: PolicyRequirements): FileEvaluation {
    FileEvaluation(VerdictOf(identityUsable, exam, r), exam.qualified, exam.nonqualifying,
                   FailedRequirements(exam.qualified, r), LossScenarios(exam.qualified), exam.validUntil)
  }

  function Evaluate(file: FileFact, r: PolicyRequirements, topology: Assignments, now: nat): Result<FileEvaluation, PolicyError> {
    if !IdentityUsable(file) then Ok(Evaluation(false, Exam([], Unidentified(file.copies), None), r))
    else
      var exam := Examine(file.copies, file, r, topology, now);
      if exam.Err? then Err(exam.error) else Ok(Evaluation(true, exam.value, r))
  }

  lemma ExamineNext(copies: seq<CopyFact>, i: nat, file: FileFact, r: PolicyRequirements, topology: Assignments, now: nat)
    requires i < |copies|
    ensures var before, a := Examine(copies[..i], file, r, topology, now), Assessed(copies[i], file, r, topology, now);
            Examine(copies[..i + 1], file, r, topology, now) ==
            if before.Err? then before else if a.Err? then Err(a.error)
            else Ok(AddAssessment(before.value, copies[i], a.value, RunPlan(Plan(copies[i], file, r), now).value.validUntil))
  {
    hide Assessed, RunPlan, Plan;
    assert copies[..i + 1][..i] == copies[..i];
  }

  lemma {:induction false} ExamineFails(copies: seq<CopyFact>, i: nat, file: FileFact, r: PolicyRequirements,
                                        topology: Assignments, now: nat)
    requires i <= |copies| && Examine(copies[..i], file, r, topology, now).Err?
    ensures Examine(copies, file, r, topology, now) == Examine(copies[..i], file, r, topology, now)
    decreases |copies| - i
  {
    hide Assessed, RunPlan, Plan, Examine;
    if i == |copies| {
      assert copies[..i] == copies;
    } else {
      ExamineNext(copies, i, file, r, topology, now);
      ExamineFails(copies, i + 1, file, r, topology, now);
    }
  }

  /** `evaluate_file`. */
  method EvaluateFile(file: FileFact, r: PolicyRequirements, topology: Assignments, now: nat)
    returns (result: Result<FileEvaluation, PolicyError>)
    ensures result == Evaluate(file, r, topology, now)
  {
    hide Assessed, RunPlan, Plan, Examine, FailedRequirements, LossScenarios, PermanentLoss, Assessor.Valid;
    var qualified: seq<QualifiedCopy> := [];
    var nonqualifying: seq<Nonqualifying> := [];
    var uncertainMaterial := false;
    var assessor := new Assessor();
    var usable := IdentityUsable(file);
    if usable {
      assert file.copies[..0] == [];
      NothingExamined(file, r, topology, now);
      for i := 0 to |file.copies|
        invariant Examine(file.copies[..i], file, r, topology, now) == Ok(Exam(qualified, nonqualifying, assessor.validUntil))
        invariant uncertainMaterial == HasUncertain(nonqualifying)
      {
        ExamineNext(file.copies, i, file, r, topology, now);
        var assessed := assessor.AssessCopy(file.copies[i], file, r, topology, now);
        if assessed.Err? {
          ExamineFails(file.copies, i + 1, file, r, topology, now);
          return Err(assessed.error);
        }
        var a := assessed.value;
        if a.qualified.Some? {
          qualified := qualified + [a.qualified.value];
        } else {
          uncertainMaterial := uncertainMaterial || a.uncertain;
          UncertainSnoc(nonqualifying, Nonqualifying(file.copies[i].copyClaimId, file.copies[i].locationId, a.reasons, a.uncertain));
          nonqualifying := nonqualifying + [Nonqualifying(file.copies[i].copyClaimId, file.copies[i].locationId, a.reasons, a.uncertain)];
        }
      }
      assert file.copies[..|file.copies|] == file.copies;
    } else {
      uncertainMaterial := true;
      for i := 0 to |file.copies|
        invariant nonqualifying == Unidentified(file.copies)[..i]
      {
        nonqualifying := nonqualifying + [Nonqualifying(file.copies[i].copyClaimId, file.copies[i].locationId,
                                                        ["file_identity_not_resolved_to_blake3"], true)];
      }
      assert nonqualifying == Unidentified(file.copies);
    }
    var failed := FailedRequirements(qualified, r);
    var scenarios := LossScenarios(qualified);
    var permanentLoss := exists s :: s in scenarios && s.permanentLoss;
    LossFromScenarios(qualified);
    var verdict :=
      if |failed| > 0 || permanentLoss || !usable then (if uncertainMaterial || !usable then Uncertain else Violated)
      else Satisfied;
    return Ok(FileEvaluation(verdict, qualified, nonqualifying, failed, scenarios, assessor.validUntil));
  }

  lemma LossFromScenarios(q: seq<QualifiedCopy>)
    ensures PermanentLoss(q) <==> exists s :: s in LossScenarios(q) && s.permanentLoss
  {
  }

  lemma NothingExamined(file: FileFact, r: PolicyRequirements, topology: Assignments, now: nat)
    ensures Examine([], file, r, topology, now) == Ok(Exam([], [], None))
  {
  }

  lemma UncertainSnoc(ns: seq<Nonqualifying>, n: Nonqualifying)
    ensures HasUncertain(ns + [n]) <==> HasUncertain(ns) || n.uncertain
  {
    forall i | 0 <= i < |ns| ensures (ns + [n])[i] == ns[i] {}
    assert (ns + [n])[|ns|] == n;
  }

  // ----- what a satisfied file can lose -----

  predicate Meets(q: seq<QualifiedCopy>, r: PolicyRequirements) {
    && |q| >= r.minQualifyingCopies && |DeviceIds(q)| >= r.minDevices && |SiteIds(q)| >= r.minSites
    && (r.requireOffsiteCopy ==> HasOffsite(q)) && (r.requireOfflineCopy ==> HasOffline(q))
    && (r.requireEncryptedOffsite ==> HasEncryptedOffsite(q))
  }

  /** A qualifying copy outside the domain remains when everything in it is lost. */
  predicate Survives(q: seq<QualifiedCopy>, dm: Domain) { exists c :: c in q && dm !in c.domains }

  ghost predicate SurvivesAnyLoss(q: seq<QualifiedCopy>) { |q| > 0 ==> forall dm :: Survives(q, dm) }

  lemma {:induction false} AffectedAll(q: seq<QualifiedCopy>, dm: Domain)
    ensures |Affected(q, dm)| <= |q|
    ensures |Affected(q, dm)| == |q| <==> forall c :: c in q ==> dm in c.domains
  {
    if |q| > 0 {
      var init, last := q[..|q| - 1], q[|q| - 1];
      AffectedAll(init, dm);
      assert q == init + [last];
      assert forall c :: c in q <==> c in init || c == last;
    }
  }

  /** The simulated losses decide exactly the survival of every domain there is. */
  lemma LossSimulationExact(q: seq<QualifiedCopy>)
    ensures !PermanentLoss(q) <==> SurvivesAnyLoss(q)
  {
    if !PermanentLoss(q) {
      forall dm | |q| > 0 ensures Survives(q, dm) {
        AffectedAll(q, dm);
        if dm in AllDomains(q) {
          assert ScenarioOf(q, dm) in LossScenarios(q);
        } else {
          assert q[0] in q && dm !in q[0].domains;
        }
      }
    }
    if PermanentLoss(q) {
      var s :| s in LossScenarios(q) && s.permanentLoss;
      AffectedAll(q, s.domain);
      assert !Survives(q, s.domain);
    }
  }

  lemma RequirementsExact(q: seq<QualifiedCopy>, r: PolicyRequirements)
    ensures |FailedRequirements(q, r)| == 0 <==> Meets(q, r)
  {
    hide DeviceIds, SiteIds, HasOffsite, HasOffline, HasEncryptedOffsite;
  }

  /** When a file is satisfied, exactly. */
  lemma SatisfiedExactly(file: FileFact, r: PolicyRequirements, topology: Assignments, now: nat)
    requires Evaluate(file, r, topology, now).Ok?
    ensures var e := Evaluate(file, r, topology, now).value;
            e.verdict == Satisfied <==> IdentityUsable(file) && Meets(e.qualified, r) && SurvivesAnyLoss(e.qualified)
  {
    hide Examine, FailedRequirements, Meets, PermanentLoss, SurvivesAnyLoss, Unidentified;
    var e := Evaluate(file, r, topology, now).value;
    RequirementsExact(e.qualified, r);
    LossSimulationExact(e.qualified);
  }

  /** Where a copy is stored: its device, or the service location itself. */
  function StorageOf(c: QualifiedCopy): Domain {
    if c.deviceId.Some? then Device(c.deviceId.value) else Service(c.locationId)
  }

  lemma {:induction false} QualifiedDomains(copies: seq<CopyFact>, file: FileFact, r: PolicyRequirements,
                                            topology: Assignments, now: nat)
    requires Examine(copies, file, r, topology, now).Ok?
    ensures forall c :: c in Examine(copies, file, r, topology, now).value.qualified ==>
              StorageOf(c) in c.domains && Site(c.siteId) in c.domains
  {
    hide RunPlan, Plan, RisksOf;
    if |copies| > 0 {
      QualifiedDomains(copies[..|copies| - 1], file, r, topology, now);
    }
  }

  lemma TwoApart(q: seq<QualifiedCopy>)
    requires |q| > 0 && forall dm :: Survives(q, dm)
    requires forall c :: c in q ==> StorageOf(c) in c.domains && Site(c.siteId) in c.domains
    ensures exists a, b :: a in q && b in q && a.siteId != b.siteId
    ensures exists a, b :: a in q && b in q && StorageOf(a) != StorageOf(b)
  {
    hide StorageOf;
    var a := q[0];
    assert a in q;
    assert Survives(q, Site(a.siteId)) && Survives(q, StorageOf(a));
    var b :| b in q && Site(a.siteId) !in b.domains;
    var c :| c in q && StorageOf(a) !in c.domains;
    assert a.siteId != b.siteId && StorageOf(a) != StorageOf(c);
  }

  /** A satisfied file survives losing any one device, service, site or custom risk domain; so its
      qualifying copies span at least two sites and two storage domains. */
  lemma SatisfiedToleratesLoss(file: FileFact, r: PolicyRequirements, topology: Assignments, now: nat)
    requires r.Valid() && Evaluate(file, r, topology, now).Ok?
    requires Evaluate(file, r, topology, now).value.verdict == Satisfied
    ensures var q := Evaluate(file, r, topology, now).value.qualified;
            && (forall dm :: Survives(q, dm))
            && (exists a, b :: a in q && b in q && a.siteId != b.siteId)
            && (exists a, b :: a in q && b in q && StorageOf(a) != StorageOf(b))
  {
    hide Examine, FailedRequirements, PermanentLoss, LossScenarios, DeviceIds, SiteIds, Unidentified;
    var q := Evaluate(file, r, topology, now).value.qualified;
    SatisfiedExactly(file, r, topology, now);
    QualifiedDomains(file.copies, file, r, topology, now);
    TwoApart(q);
  }

  // ----- more copies -----

  /** `q'` has at least the copies of `q`. */
  ghost predicate Covers(q: seq<QualifiedCopy>, q': seq<QualifiedCopy>) {
    |q| <= |q'| && forall c :: c in q ==> c in q'
  }

  lemma SubsetSize<T>(a: set<T>, b: set<T>)
    requires a <= b
    ensures |a| <= |b|
  {
    assert b == a + (b - a);
    assert |a + (b - a)| == |a| + |b - a|;
  }

  lemma MeetsMore(q: seq<QualifiedCopy>, q': seq<QualifiedCopy>, r: PolicyRequirements)
    requires Covers(q, q') && Meets(q, r)
    ensures Meets(q', r)
  {
    SubsetSize(DeviceIds(q), DeviceIds(q'));
    SubsetSize(SiteIds(q), SiteIds(q'));
  }

  lemma SurvivesMore(q: seq<QualifiedCopy>, q': seq<QualifiedCopy>)
    requires Covers(q, q') && SurvivesAnyLoss(q) && |q| > 0
    ensures SurvivesAnyLoss(q')
  {
    forall dm ensures Survives(q', dm) {
      assert Survives(q, dm);
      var c :| c in q && dm !in c.domains;
    }
  }

  /** Whatever is added elsewhere, a satisfied file stays satisfied while its qualifying copies stay. */
  lemma SatisfiedMonotone(file: FileFact, file': FileFact, r: PolicyRequirements, topology: Assignments, t: nat, t': nat)
    requires r.Valid() && Evaluate(file, r, topology, t).Ok? && Evaluate(file', r, topology, t').Ok?
    requires IdentityUsable(file) ==> IdentityUsable(file')
    requires Covers(Evaluate(file, r, topology, t).value.qualified, Evaluate(file', r, topology, t').value.qualified)
    requires Evaluate(file, r, topology, t).value.verdict == Satisfied
    ensures Evaluate(file', r, topology, t').value.verdict == Satisfied
  {
    hide Evaluate, SurvivesAnyLoss, IdentityUsable;
    var q, q' := Evaluate(file, r, topology, t).value.qualified, Evaluate(file', r, topology, t').value.qualified;
    SatisfiedExactly(file, r, topology, t);
    SatisfiedExactly(file', r, topology, t');
    MeetsMore(q, q', r);
    SurvivesMore(q, q');
  }

  predicate Subsequence(a: seq<CopyFact>, b: seq<CopyFact>) {
    if |b| == 0 then |a| == 0
    else Subsequence(a, b[..|b| - 1]) || (|a| > 0 && a[|a| - 1] == b[|b| - 1] && Subsequence(a[..|a| - 1], b[..|b| - 1]))
  }

  /** How a copy is assessed does not depend on the file's other copies. */
  lemma AssessedAlone(copy: CopyFact, file: FileFact, file': FileFact, r: PolicyRequirements, topology: Assignments, now: nat)
    requires file' == file.(copies := file'.copies)
    ensures Plan(copy, file', r) == Plan(copy, file, r)
    ensures Assessed(copy, file', r, topology, now) == Assessed(copy, file, r, topology, now)
  {
  }

  lemma {:induction false} ExamineMore(a: seq<CopyFact>, b: seq<CopyFact>, file: FileFact, file': FileFact, r: PolicyRequirements,
                                       topology: Assignments, now: nat)
    requires Subsequence(a, b) && file' == file.(copies := file'.copies)
    requires Examine(a, file, r, topology, now).Ok? && Examine(b, file', r, topology, now).Ok?
    ensures Covers(Examine(a, file, r, topology, now).value.qualified, Examine(b, file', r, topology, now).value.qualified)
    decreases |b|
  {
    hide Assessed, RunPlan, Plan;
    if |b| > 0 {
      var b0 := b[..|b| - 1];
      if Subsequence(a, b0) {
        ExamineMore(a, b0, file, file', r, topology, now);
      } else {
        ExamineMore(a[..|a| - 1], b0, file, file', r, topology, now);
        AssessedAlone(a[|a| - 1], file, file', r, topology, now);
      }
    }
  }

  /** Adding copies to a file never makes it unsatisfied. */
  lemma MoreCopiesStaySatisfied(file: FileFact, copies: seq<CopyFact>, r: PolicyRequirements, topology: Assignments, now: nat)
    requires r.Valid() && Subsequence(file.copies, copies)
    requires Evaluate(file, r, topology, now).Ok? && Evaluate(file.(copies := copies), r, topology, now).Ok?
    requires Evaluate(file, r, topology, now).value.verdict == Satisfied
    ensures Evaluate(file.(copies := copies), r, topology, now).value.verdict == Satisfied
  {
    hide Examine, FailedRequirements, PermanentLoss, LossScenarios, Subsequence;
    var file' := file.(copies := copies);
    ExamineMore(file.copies, copies, file, file', r, topology, now);
    SatisfiedMonotone(file, file', r, topology, now, now);
  }

  // ----- how verdicts age -----

  /** No timestamp of any copy lies after `now`. */
  predicate NoFutureCopies(copies: seq<CopyFact>, file: FileFact, r: PolicyRequirements, now: nat) {
    forall i :: 0 <= i < |copies| ==> NoFuture(Plan(copies[i], file, r), now)
  }

  lemma {:induction false} ExamineStable(copies: seq<CopyFact>, file: FileFact, r: PolicyRequirements, topology: Assignments,
                                         t0: nat, t: nat)
    requires t0 <= t && Examine(copies, file, r, topology, t0).Ok? && NoFutureCopies(copies, file, r, t0)
    requires Before(t, Examine(copies, file, r, topology, t0).value.validUntil)
    ensures Examine(copies, file, r, topology, t) == Examine(copies, file, r, topology, t0)
  {
    hide RunPlan, Plan, NoFuture;
    if |copies| > 0 {
      var init, last := copies[..|copies| - 1], copies[|copies| - 1];
      forall i | 0 <= i < |init| ensures NoFuture(Plan(init[i], file, r), t0) { assert init[i] == copies[i]; }
      ExamineStable(init, file, r, topology, t0, t);
      assert last == copies[|copies| - 1];
      PlanStable(Plan(last, file, r), t0, t);
    }
  }

  /** A copy that qualifies keeps qualifying until the first expiry. */
  lemma {:induction false} ExamineKeeps(copies: seq<CopyFact>, file: FileFact, r: PolicyRequirements, topology: Assignments,
                                        t0: nat, t: nat)
    requires t0 <= t && Examine(copies, file, r, topology, t0).Ok? && Examine(copies, file, r, topology, t).Ok?
    requires Before(t, Examine(copies, file, r, topology, t0).value.validUntil)
    ensures Covers(Examine(copies, file, r, topology, t0).value.qualified, Examine(copies, file, r, topology, t).value.qualified)
  {
    hide RunPlan, Plan, NoFuture;
    if |copies| > 0 {
      var init, last := copies[..|copies| - 1], copies[|copies| - 1];
      ExamineKeeps(init, file, r, topology, t0, t);
      var plan := Plan(last, file, r);
      if Assessed(last, file, r, topology, t0).value.qualified.Some? {
        if !NoFuture(plan, t0) { FutureUncertain(plan, t0); }
        PlanStable(plan, t0, t);
      }
    }
  }

  /** Future timestamps leave uncertain copies. */
  lemma {:induction false} FutureCopiesUncertain(copies: seq<CopyFact>, file: FileFact, r: PolicyRequirements,
                                                 topology: Assignments, now: nat)
    requires Examine(copies, file, r, topology, now).Ok?
    requires !HasUncertain(Examine(copies, file, r, topology, now).value.nonqualifying)
    ensures NoFutureCopies(copies, file, r, now)
  {
    hide RunPlan, Plan, NoFuture;
    if |copies| > 0 {
      var init, last := copies[..|copies| - 1], copies[|copies| - 1];
      var before, all := Examine(init, file, r, topology, now).value.nonqualifying, Examine(copies, file, r, topology, now).value.nonqualifying;
      var a := Assessed(last, file, r, topology, now).value;
      if a.qualified.None? {
        UncertainSnoc(before, Nonqualifying(last.copyClaimId, last.locationId, a.reasons, a.uncertain));
      }
      FutureCopiesUncertain(init, file, r, topology, now);
      if !NoFuture(Plan(last, file, r), now) { FutureUncertain(Plan(last, file, r), now); }
      forall i | 0 <= i < |copies| ensures NoFuture(Plan(copies[i], file, r), now) {
        if i < |init| { assert init[i] == copies[i]; } else { assert last == copies[i]; }
      }
    }
  }

  lemma {:induction false} ExamineSucceeds(copies: seq<CopyFact>, file: FileFact, r: PolicyRequirements, topology: Assignments, now: nat)
    requires forall i :: 0 <= i < |copies| ==> NoOverflow(Plan(copies[i], file, r))
    ensures Examine(copies, file, r, topology, now).Ok?
  {
    hide RunPlan, Plan, NoOverflow;
    if |copies| > 0 {
      var init, last := copies[..|copies| - 1], copies[|copies| - 1];
      forall i | 0 <= i < |init| ensures NoOverflow(Plan(init[i], file, r)) { assert init[i] == copies[i]; }
      ExamineSucceeds(init, file, r, topology, now);
      assert last == copies[|copies| - 1];
      PlanSucceeds(Plan(last, file, r), now);
    }
  }

  /** Evaluation never fails while no expiry can exceed the clock's range. */
  lemma EvaluateSucceeds(file: FileFact, r: PolicyRequirements, topology: Assignments, now: nat)
    requires forall i :: 0 <= i < |file.copies| ==> NoOverflow(Plan(file.copies[i], file, r))
    ensures Evaluate(file, r, topology, now).Ok?
  {
    hide NoOverflow, Plan;
    ExamineSucceeds(file.copies, file, r, topology, now);
  }

  /** Up to the first expiry a satisfied file stays satisfied and a violated one stays violated; with
      no timestamp in the future the whole evaluation stays the same. */
  lemma VerdictStable(file: FileFact, r: PolicyRequirements, topology: Assignments, t0: nat, t: nat)
    requires r.Valid() && t0 <= t && Evaluate(file, r, topology, t0).Ok?
    requires Before(t, Evaluate(file, r, topology, t0).value.validUntil)
    ensures NoFutureCopies(file.copies, file, r, t0) ==> Evaluate(file, r, topology, t) == Evaluate(file, r, topology, t0)
    ensures Evaluate(file, r, topology, t0).value.verdict == Violated ==>
              Evaluate(file, r, topology, t) == Evaluate(file, r, topology, t0)
    ensures Evaluate(file, r, topology, t0).value.verdict == Satisfied && Evaluate(file, r, topology, t).Ok? ==>
              Evaluate(file, r, topology, t).value.verdict == Satisfied
  {
    hide Examine, FailedRequirements, PermanentLoss, LossScenarios, NoFutureCopies;
    if IdentityUsable(file) {
      if Evaluate(file, r, topology, t0).value.verdict == Violated {
        FutureCopiesUncertain(file.copies, file, r, topology, t0);
      }
      if NoFutureCopies(file.copies, file, r, t0) {
        ExamineStable(file.copies, file, r, topology, t0, t);
      } else if Evaluate(file, r, topology, t).Ok? && Evaluate(file, r, topology, t0).value.verdict == Satisfied {
        ExamineKeeps(file.copies, file, r, topology, t0, t);
        SatisfiedMonotone(file, file, r, topology, t0, t);
      }
    }
  }

  // ----- which uncertain verdicts change -----

  /** Everything found against the copy at `t0` is a timestamp that lies ahead and is good by `t`. */
  predicate QualifiesBy(copy: CopyFact, file: FileFact, r: PolicyRequirements, t0: nat, t: nat) {
    var plan := Plan(copy, file, r);
    forall i :: 0 <= i < |plan| ==> QuietItem(plan[i], t0) || Clears(plan[i], t0, t)
  }

  /** Something uncertain about the copy at `t0` is not such a timestamp. */
  predicate StaysUncertain(copy: CopyFact, file: FileFact, r: PolicyRequirements, t0: nat, t: nat) {
    var plan := Plan(copy, file, r);
    exists i :: 0 <= i < |plan| && UncertainItem(plan[i], t0) && !Clears(plan[i], t0, t)
  }

  /** The copies that will qualify. */
  function QualifyingBy(copies: seq<CopyFact>, file: FileFact, r: PolicyRequirements, topology: Assignments, t0: nat, t: nat)
    : seq<QualifiedCopy>
  {
    if |copies| == 0 then []
    else
      QualifyingBy(copies[..|copies| - 1], file, r, topology, t0, t)
      + if QualifiesBy(copies[|copies| - 1], file, r, t0, t) then [Qualify(copies[|copies| - 1], file, topology)] else []
  }

  predicate SomeStayUncertain(copies: seq<CopyFact>, file: FileFact, r: PolicyRequirements, t0: nat, t: nat) {
    exists k :: 0 <= k < |copies| && StaysUncertain(copies[k], file, r, t0, t)
  }

  lemma CopyAges(copy: CopyFact, file: FileFact, r: PolicyRequirements, topology: Assignments, t0: nat, t: nat)
    requires t0 <= t && Assessed(copy, file, r, topology, t0).Ok? && Assessed(copy, file, r, topology, t).Ok?
    requires Before(t, RunPlan(Plan(copy, file, r), t0).value.validUntil)
    ensures var a := Assessed(copy, file, r, topology, t).value;
            && (a.qualified.Some? <==> QualifiesBy(copy, file, r, t0, t))
            && (a.qualified.Some? ==> a.qualified.value == Qualify(copy, file, topology))
            && (a.uncertain <==> StaysUncertain(copy, file, r, t0, t))
            && (a.qualified.Some? ==> !a.uncertain)
  {
    hide RunPlan, Plan, Qualify, QuietItem, Clears, UncertainItem;
    PlanAges(Plan(copy, file, r), t0, t);
  }

  lemma {:induction false} ExamineAges(copies: seq<CopyFact>, file: FileFact, r: PolicyRequirements, topology: Assignments,
                                       t0: nat, t: nat)
    requires t0 <= t && Examine(copies, file, r, topology, t0).Ok? && Examine(copies, file, r, topology, t).Ok?
    requires Before(t, Examine(copies, file, r, topology, t0).value.validUntil)
    ensures var exam := Examine(copies, file, r, topology, t).value;
            && exam.qualified == QualifyingBy(copies, file, r, topology, t0, t)
            && (HasUncertain(exam.nonqualifying) <==> SomeStayUncertain(copies, file, r, t0, t))
  {
    hide RunPlan, Plan, Assessed, Qualify, QualifiesBy, StaysUncertain, HasUncertain, SomeStayUncertain;
    StayUncertainSnoc(copies, file, r, t0, t);
    if |copies| == 0 {
      assert !HasUncertain([]) by { NoneUncertain(); }
    } else {
      var init, last := copies[..|copies| - 1], copies[|copies| - 1];
      ExamineAges(init, file, r, topology, t0, t);
      CopyAges(last, file, r, topology, t0, t);
      var a := Assessed(last, file, r, topology, t).value;
      UncertainSnoc(Examine(init, file, r, topology, t).value.nonqualifying,
                    Nonqualifying(last.copyClaimId, last.locationId, a.reasons, a.uncertain));
    }
  }

  lemma StayUncertainSnoc(copies: seq<CopyFact>, file: FileFact, r: PolicyRequirements, t0: nat, t: nat)
    ensures SomeStayUncertain(copies, file, r, t0, t) <==>
            |copies| > 0 &&
            (SomeStayUncertain(copies[..|copies| - 1], file, r, t0, t) || StaysUncertain(copies[|copies| - 1], file, r, t0, t))
  {
    hide StaysUncertain;
    if |copies| > 0 {
      var init := copies[..|copies| - 1];
      assert forall k :: 0 <= k < |init| ==> init[k] == copies[k];
    }
  }

  lemma NoneUncertain()
    ensures !HasUncertain([])
  {
  }

  /** The verdict at any time before the first expiry, from what is known at `t0`. It says exactly which uncertain
      verdicts change: those where the copies good by then meet the requirements, and those where nothing stays
      uncertain; never one whose identity is unusable. */
  lemma VerdictAgesExactly(file: FileFact, r: PolicyRequirements, topology: Assignments, t0: nat, t: nat)
    requires t0 <= t && Evaluate(file, r, topology, t0).Ok? && Evaluate(file, r, topology, t).Ok?
    requires Before(t, Evaluate(file, r, topology, t0).value.validUntil)
    ensures var e, q := Evaluate(file, r, topology, t).value, QualifyingBy(file.copies, file, r, topology, t0, t);
            && (e.verdict == Satisfied <==> IdentityUsable(file) && Meets(q, r) && SurvivesAnyLoss(q))
            && (e.verdict == Violated <==> IdentityUsable(file) && !(Meets(q, r) && SurvivesAnyLoss(q))
                                           && !SomeStayUncertain(file.copies, file, r, t0, t))
  {
    hide Examine, FailedRequirements, PermanentLoss, LossScenarios, Meets, SurvivesAnyLoss, QualifyingBy, SomeStayUncertain, HasUncertain;
    if IdentityUsable(file) {
      ExamineAges(file.copies, file, r, topology, t0, t);
      var q := Examine(file.copies, file, r, topology, t).value.qualified;
      RequirementsExact(q, r);
      LossSimulationExact(q);
    }
  }

  /** A sound service copy, verified at `verified`. */
  function SampleCopy(verified: nat): CopyFact {
    CopyFact("copy", "present", Some("object"), Some(0), Some(verified), Some("ok"), "location", "service", "active",
             None, None, None, None, None, None, None, None, None, None, Some("site"), Some("active"),
             None, Some("trusted"), "online")
  }

  const SAMPLE_RULES := PolicyRequirements(1, 1, 1, false, false, false, 10, 10, 10)
  const SAMPLE_FILE := FileFact("file", Some("object"), "resolved", None, Some("blake3"), "policy", "home", [SampleCopy(7)])

  /** Uncertain verdicts are not stable: a verification time that lies in the future makes the copy
      uncertain now and qualifying later, well within the validity of the evaluation. */
  lemma FutureNotStable()
    ensures var e0, e1 := Evaluate(SAMPLE_FILE, SAMPLE_RULES, map[], 5), Evaluate(SAMPLE_FILE, SAMPLE_RULES, map[], 7);
            && SAMPLE_RULES.Valid() && e0.Ok? && e1.Ok? && Before(7, e0.value.validUntil)
            && e0.value.verdict == Uncertain && e1.value.verdict == Violated
  {
    hide Examine, RunPlan, Plan, LossScenarios, PermanentLoss, SiteIds, Unidentified;
    SampleExam(5);
    SampleExam(7);
    assert DeviceIds([]) == {};
    assert DeviceIds([Qualify(SampleCopy(7), SAMPLE_FILE, map[])]) == {};
  }

  lemma SampleExam(now: nat)
    requires now == 5 || now == 7
    ensures var exam := Examine(SAMPLE_FILE.copies, SAMPLE_FILE, SAMPLE_RULES, map[], now);
            && exam.Ok? && Before(7, exam.value.validUntil)
            && exam.value.qualified == (if now == 5 then [] else [Qualify(SampleCopy(7), SAMPLE_FILE, map[])])
            && (now == 5 <==> HasUncertain(exam.value.nonqualifying))
  {
    hide RunPlan, Plan, Qualify, Examine;
    var copies := SAMPLE_FILE.copies;
    SamplePlan(now, SAMPLE_FILE, SAMPLE_RULES);
    assert copies[..0] == [] && copies[..1] == copies && copies[0] == SampleCopy(7);
    NothingExamined(SAMPLE_FILE, SAMPLE_RULES, map[], now);
    ExamineNext(copies, 0, SAMPLE_FILE, SAMPLE_RULES, map[], now);
    if now == 5 {
      assert Examine(copies, SAMPLE_FILE, SAMPLE_RULES, map[], now).value.nonqualifying[0].uncertain;
    }
  }

  lemma SampleFindings(file: FileFact)
    requires file.objectId == Some("object")
    ensures IdentityFindings(SampleCopy(7), file) == [] && PlaceFindings(SampleCopy(7)) == []
    ensures EncryptionFindings(SampleCopy(7), file, SAMPLE_RULES) == [] && DevicePlan(SampleCopy(7), SAMPLE_RULES) == [Static([])]
  {
  }

  lemma SampleTimes(now: nat)
    requires now == 5 || now == 7
    ensures FreshnessAt(Check(Some(0), 10, "observation"), now) == Fresh(864_000_000)
    ensures now == 7 ==> FreshnessAt(Check(Some(7), 10, "verification"), now) == Fresh(864_000_007)
    ensures now == 5 ==> FreshnessAt(Check(Some(7), 10, "verification"), now) == Stale("verification_time_in_future")
  {
  }

  lemma SamplePlan(now: nat, file: FileFact, r: PolicyRequirements)
    requires file.objectId == Some("object") && r == PolicyRequirements(1, 1, 1, false, false, false, 10, 10, 10)
    requires now == 5 || now == 7
    ensures var run := RunPlan(Plan(SampleCopy(7), file, r), now);
            && run.Ok? && run.value.validUntil.Some? && run.value.validUntil.value > 7
            && |run.value.findings| == (if now == 5 then 1 else 0)
            && (now == 5 ==> AnyUncertain(run.value.findings))
  {
    hide IdentityFindings, PlaceFindings, EncryptionFindings, DevicePlan, RunPlan, FreshnessAt;
    var copy := SampleCopy(7);
    SampleFindings(file);
    SampleTimes(now);
    var start: seq<Item> := [];
    var p0 := start + [Static([])];
    var p1 := p0 + [Timed(Check(Some(7), 10, "verification"))];
    var p2 := p1 + [Timed(Check(Some(0), 10, "observation"))];
    var p3 := p2 + [Static([])];
    var p4 := p3 + [Static([])];
    assert p4 + [Static([])] == Plan(copy, file, r);
    NothingRun(now);
    PlanSnoc(start, Static([]), now);
    PlanSnoc(p0, Timed(Check(Some(7), 10, "verification")), now);
    PlanSnoc(p1, Timed(Check(Some(0), 10, "observation")), now);
    PlanSnoc(p2, Static([]), now);
    PlanSnoc(p3, Static([]), now);
    PlanSnoc(p4, Static([]), now);
    if now == 5 { assert RunPlan(Plan(copy, file, r), now).value.findings[0].uncertain; }
  }

  lemma NothingRun(now: nat)
    ensures RunPlan([], now) == Ok(Seen([], None))
  {
  }
}
