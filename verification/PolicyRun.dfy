/** Evaluating every active file of every policy from one stream of rows, and reusing the result. */
module PolicyRun {
  import opened Wrappers
  import opened PolicyAssess
  import opened PolicyEvaluate

  const I64_MAX: nat := 0x7FFF_FFFF_FFFF_FFFF
  const RULES_VERSION: nat := 1

  datatype PolicyContext = PolicyContext(
    evaluationId: string, policyId: string, policyVersion: nat, requirements: PolicyRequirements,
    filesExpected: nat, filesEvaluated: nat, filesSatisfied: nat, filesViolated: nat, filesUncertain: nat,
    filesSizeUnknown: nat, bytesKnownTotal: nat, bytesKnownAtRisk: nat, validUntil: Option<nat>)

  datatype StoredFinding = StoredFinding(evaluationId: string, fileRefId: string, verdict: Verdict)

  /** One row of the join: a file, and one of its copies if it has any. */
  datatype Row = Row(file: FileFact, copy: Option<CopyFact>)

  datatype RunState = RunState(policies: map<string, PolicyContext>, findings: seq<StoredFinding>)

  function SaturatingAdd(a: nat, b: nat): nat { if a + b > U64_MAX then U64_MAX else a + b }

  function AddCopy(file: FileFact, copy: Option<CopyFact>): FileFact {
    if copy.Some? then file.(copies := file.copies + [copy.value]) else file
  }

  function AddRow(before: seq<FileFact>, row: Row): seq<FileFact> {
    if |before| > 0 && before[|before| - 1].fileRefId == row.file.fileRefId then
      before[..|before| - 1] + [AddCopy(before[|before| - 1], row.copy)]
    else before + [AddCopy(row.file.(copies := []), row.copy)]
  }

  /** Consecutive rows of one file belong together. */
  function GroupRows(rows: seq<Row>): seq<FileFact> {
    if |rows| == 0 then [] else AddRow(GroupRows(rows[..|rows| - 1]), rows[|rows| - 1])
  }

  lemma GroupSnoc(rows: seq<Row>, row: Row)
    ensures GroupRows(rows + [row]) == AddRow(GroupRows(rows), row)
  {
    assert (rows + [row])[..|rows|] == rows;
  }

  function Counted(c: PolicyContext, file: FileFact, e: FileEvaluation): PolicyContext {
    var size := if file.sizeBytes.Some? then file.sizeBytes.value else 0;
    c.(filesEvaluated := c.filesEvaluated + 1,
       bytesKnownTotal := if file.sizeBytes.Some? then SaturatingAdd(c.bytesKnownTotal, size) else c.bytesKnownTotal,
       filesSizeUnknown := if file.sizeBytes.Some? then c.filesSizeUnknown else c.filesSizeUnknown + 1,
       validUntil := MinTime(c.validUntil, e.validUntil),
       filesSatisfied := if e.verdict == Satisfied then c.filesSatisfied + 1 else c.filesSatisfied,
       filesViolated := if e.verdict == Violated then c.filesViolated + 1 else c.filesViolated,
       filesUncertain := if e.verdict == Uncertain then c.filesUncertain + 1 else c.filesUncertain,
       bytesKnownAtRisk := if e.verdict != Satisfied && file.sizeBytes.Some? then SaturatingAdd(c.bytesKnownAtRisk, size)
                           else c.bytesKnownAtRisk)
  }

  function Stored(s: RunState, file: FileFact, topology: Assignments, now: nat): Result<RunState, PolicyError> {
    if file.policyId !in s.policies then Err(InvalidState)
    else
      var c := s.policies[file.policyId];
      var e := Evaluate(file, c.requirements, topology, now);
      if e.Err? then Err(e.error)
      else Ok(RunState(s.policies[file.policyId := Counted(c, file, e.value)],
                       if e.value.verdict == Satisfied then s.findings
                       else s.findings + [StoredFinding(c.evaluationId, file.fileRefId, e.value.verdict)]))
  }

  /** Each file once, with all its copies. */
  function EvaluateAll(files: seq<FileFact>, s: RunState, topology: Assignments, now: nat): Result<RunState, PolicyError> {
    if |files| == 0 then Ok(s)
    else
      var before := EvaluateAll(files[..|files| - 1], s, topology, now);
      if before.Err? then before else Stored(before.value, files[|files| - 1], topology, now)
  }

  lemma AllSnoc(files: seq<FileFact>, file: FileFact, s: RunState, topology: Assignments, now: nat)
    ensures var before := EvaluateAll(files, s, topology, now);
            EvaluateAll(files + [file], s, topology, now) ==
            if before.Err? then before else Stored(before.value, file, topology, now)
  {
    assert (files + [file])[..|files|] == files;
  }

  lemma {:induction false} AllFails(files: seq<FileFact>, more: seq<FileFact>, s: RunState, topology: Assignments, now: nat)
    requires files <= more && EvaluateAll(files, s, topology, now).Err?
    ensures EvaluateAll(more, s, topology, now) == EvaluateAll(files, s, topology, now)
    decreases |more|
  {
    if |more| == |files| {
      assert more == files;
    } else {
      AllFails(files, more[..|more| - 1], s, topology, now);
    }
  }

  class PolicyRunner {
    var policies: map<string, PolicyContext>
    var findings: seq<StoredFinding>

    constructor (policies: map<string, PolicyContext>)
      ensures View() == RunState(policies, [])
    {
      this.policies, findings := policies, [];
    }

    function View(): RunState
      reads this
    {
      RunState(policies, findings)
    }

    /** `evaluate_and_store_file`. */
    method EvaluateAndStoreFile(file: FileFact, topology: Assignments, now: nat) returns (r: Result<(), PolicyError>)
      modifies this
      ensures r.Ok? ==> Stored(old(View()), file, topology, now) == Ok(View())
      ensures r.Err? ==> Stored(old(View()), file, topology, now) == Err(r.error)
    {
      hide Evaluate;
      if file.policyId !in policies {
        return Err(InvalidState);
      }
      var evaluated := EvaluateFile(file, policies[file.policyId].requirements, topology, now);
      if evaluated.Err? {
        return Err(evaluated.error);
      }
      var e, c := evaluated.value, policies[file.policyId];
      c := c.(filesEvaluated := c.filesEvaluated + 1);
      if file.sizeBytes.Some? {
        c := c.(bytesKnownTotal := SaturatingAdd(c.bytesKnownTotal, file.sizeBytes.value));
      } else {
        c := c.(filesSizeUnknown := c.filesSizeUnknown + 1);
      }
      c := c.(validUntil := MinTime(c.validUntil, e.validUntil));
      match e.verdict {
        case Satisfied => c := c.(filesSatisfied := c.filesSatisfied + 1);
        case Violated => c := c.(filesViolated := c.filesViolated + 1);
        case Uncertain => c := c.(filesUncertain := c.filesUncertain + 1);
      }
      if e.verdict != Satisfied {
        if file.sizeBytes.Some? {
          c := c.(bytesKnownAtRisk := SaturatingAdd(c.bytesKnownAtRisk, file.sizeBytes.value));
        }
        findings := findings + [StoredFinding(c.evaluationId, file.fileRefId, e.verdict)];
      }
      assert c == Counted(policies[file.policyId], file, e);
      policies := policies[file.policyId := c];
      return Ok(());
    }

    /** `stream_and_evaluate_files`: one pass over the rows, holding one file at a time. */
    method StreamAndEvaluate(rows: seq<Row>, topology: Assignments, now: nat) returns (r: Result<(), PolicyError>)
      modifies this
      ensures r.Ok? ==> EvaluateAll(GroupRows(rows), old(View()), topology, now) == Ok(View())
      ensures r.Err? ==> EvaluateAll(GroupRows(rows), old(View()), topology, now) == Err(r.error)
    {
      hide Stored, EvaluateAll, GroupRows;
      ghost var s0 := View();
      ghost var done: seq<FileFact> := [];
      var current: Option<FileFact> := None;
      NothingEvaluated(s0, topology, now);
      NothingGrouped(rows);
      for i := 0 to |rows|
        invariant GroupRows(rows[..i]) == done + Pending(current) && (i > 0 ==> current.Some?) && (i == 0 ==> done == [])
        invariant EvaluateAll(done, s0, topology, now) == Ok(View())
      {
        var row := rows[i];
        RowGrouped(rows, i, done, current);
        if current.Some? && current.value.fileRefId != row.file.fileRefId {
          AllSnoc(done, current.value, s0, topology, now);
          var stored := EvaluateAndStoreFile(current.value, topology, now);
          if stored.Err? {
            GroupKeeps(rows, i + 1, done + [current.value]);
            AllFails(done + [current.value], GroupRows(rows), s0, topology, now);
            return Err(stored.error);
          }
          done := done + [current.value];
          current := None;
        }
        if current.None? {
          current := Some(row.file.(copies := []));
        }
        if row.copy.Some? {
          current := Some(current.value.(copies := current.value.copies + [row.copy.value]));
        }
      }
      assert rows[..|rows|] == rows;
      if current.Some? {
        AllSnoc(done, current.value, s0, topology, now);
        r := EvaluateAndStoreFile(current.value, topology, now);
        return;
      }
      return Ok(());
    }

    /** `finish_evaluations`: succeeds exactly when every policy saw its files and its numbers fit. */
    method FinishEvaluations() returns (r: Result<map<string, PolicyContext>, PolicyError>)
      ensures r.Ok? <==> forall p :: p in policies ==> Finishable(policies[p])
      ensures r.Ok? <==> forall p :: p in policies ==>
                var c := policies[p];
                && c.filesEvaluated == c.filesExpected
                && c.filesEvaluated < 0x8000_0000_0000_0000 && c.filesSatisfied < 0x8000_0000_0000_0000
                && c.filesViolated < 0x8000_0000_0000_0000 && c.filesUncertain < 0x8000_0000_0000_0000
                && c.filesSizeUnknown < 0x8000_0000_0000_0000 && c.bytesKnownTotal < 0x8000_0000_0000_0000
                && c.bytesKnownAtRisk < 0x8000_0000_0000_0000
                && (c.validUntil.Some? ==> c.validUntil.value < 0x8000_0000_0000_0000)
      ensures r.Ok? ==> r.value == policies
    {
      var left := policies.Keys;
      var rollups: map<string, PolicyContext> := map[];
      while left != {}
        invariant left <= policies.Keys
        invariant forall p :: p in policies && p !in left ==> Finishable(policies[p])
        invariant rollups == map p | p in policies && p !in left :: policies[p]
        decreases left
      {
        var p :| p in left;
        if policies[p].filesEvaluated != policies[p].filesExpected || !FitsI64(policies[p]) {
          return Err(InvalidState);
        }
        rollups := rollups[p := policies[p]];
        left := left - {p};
      }
      return Ok(rollups);
    }
  }

  function Pending(current: Option<FileFact>): seq<FileFact> { if current.Some? then [current.value] else [] }

  lemma NothingGrouped(rows: seq<Row>)
    ensures GroupRows(rows[..0]) == []
  {
  }

  /** One more row belongs to the file before it, or begins a new one. */
  lemma RowGrouped(rows: seq<Row>, i: nat, done: seq<FileFact>, current: Option<FileFact>)
    requires i < |rows| && GroupRows(rows[..i]) == done + Pending(current) && (current.None? ==> done == [])
    ensures var row := rows[i];
            GroupRows(rows[..i + 1]) ==
            if current.Some? && current.value.fileRefId == row.file.fileRefId then done + [AddCopy(current.value, row.copy)]
            else done + Pending(current) + [AddCopy(row.file.(copies := []), row.copy)]
  {
    assert rows[..i + 1][..i] == rows[..i];
    if current.Some? {
      assert (done + [current.value])[..|done|] == done;
    }
  }

  predicate FitsI64(c: PolicyContext) {
    && c.filesEvaluated <= I64_MAX && c.filesSatisfied <= I64_MAX && c.filesViolated <= I64_MAX
    && c.filesUncertain <= I64_MAX && c.filesSizeUnknown <= I64_MAX
    && c.bytesKnownTotal <= I64_MAX && c.bytesKnownAtRisk <= I64_MAX
    && (c.validUntil.Some? ==> c.validUntil.value <= I64_MAX)
  }

  predicate Finishable(c: PolicyContext) { c.filesEvaluated == c.filesExpected && FitsI64(c) }

  lemma NothingEvaluated(s: RunState, topology: Assignments, now: nat)
    ensures EvaluateAll([], s, topology, now) == Ok(s)
  {
  }

  /** Files that are complete stay as they are while later rows are read. */
  lemma {:induction false} GroupKeeps(rows: seq<Row>, i: nat, done: seq<FileFact>)
    requires 0 < i <= |rows| && done <= GroupRows(rows[..i]) && |done| < |GroupRows(rows[..i])|
    ensures done <= GroupRows(rows) && |done| < |GroupRows(rows)|
    decreases |rows| - i
  {
    if i == |rows| {
      assert rows[..i] == rows;
    } else {
      assert rows[..i + 1][..i] == rows[..i];
      GroupKeeps(rows, i + 1, done);
    }
  }

  // ----- one file, one evaluation -----

  function FileRows(file: FileFact): seq<Row> {
    if |file.copies| == 0 then [Row(file.(copies := []), None)]
    else seq(|file.copies|, i requires 0 <= i < |file.copies| => Row(file.(copies := []), Some(file.copies[i])))
  }

  /** The join: the rows of each file, file after file. */
  function RowsOf(files: seq<FileFact>): seq<Row> {
    if |files| == 0 then [] else RowsOf(files[..|files| - 1]) + FileRows(files[|files| - 1])
  }

  ghost predicate DistinctFiles(files: seq<FileFact>) {
    forall i, j :: 0 <= i < j < |files| ==> files[i].fileRefId != files[j].fileRefId
  }

  lemma {:induction false} GroupFile(before: seq<Row>, file: FileFact, n: nat)
    requires 0 < n <= |FileRows(file)|
    requires var g := GroupRows(before); |g| > 0 ==> g[|g| - 1].fileRefId != file.fileRefId
    ensures GroupRows(before + FileRows(file)[..n]) ==
            GroupRows(before) + [file.(copies := if |file.copies| == 0 then [] else file.copies[..n])]
    decreases n
  {
    hide GroupRows;
    var rows := FileRows(file);
    GroupSnoc(before + rows[..n - 1], rows[n - 1]);
    assert before + rows[..n] == before + rows[..n - 1] + [rows[n - 1]];
    if n == 1 {
      assert before + rows[..0] == before;
      if |file.copies| > 0 {
        assert [] + [file.copies[0]] == file.copies[..1];
      }
    } else {
      GroupFile(before, file, n - 1);
      assert file.copies[..n - 1] + [file.copies[n - 1]] == file.copies[..n];
    }
  }

  /** Grouping the joined rows gives back exactly the files with exactly their copies. */
  lemma {:induction false} GroupingExact(files: seq<FileFact>)
    requires DistinctFiles(files)
    ensures GroupRows(RowsOf(files)) == files
  {
    if |files| > 0 {
      var init, last := files[..|files| - 1], files[|files| - 1];
      GroupingExact(init);
      GroupNext(RowsOf(init), init, last);
    }
  }

  lemma GroupNext(rows: seq<Row>, init: seq<FileFact>, last: FileFact)
    requires GroupRows(rows) == init && (|init| > 0 ==> init[|init| - 1].fileRefId != last.fileRefId)
    ensures GroupRows(rows + FileRows(last)) == init + [last]
  {
    hide GroupRows;
    var n := |FileRows(last)|;
    assert FileRows(last)[..n] == FileRows(last);
    GroupFile(rows, last, n);
    assert last.copies[..|last.copies|] == last.copies;
  }

  // ----- conservation -----

  function FilesOf(files: seq<FileFact>, p: string): nat {
    if |files| == 0 then 0 else FilesOf(files[..|files| - 1], p) + if files[|files| - 1].policyId == p then 1 else 0
  }

  /** How many files of policy `p` get verdict `v`. */
  function Tally(files: seq<FileFact>, p: string, r: PolicyRequirements, topology: Assignments, now: nat, v: Verdict): nat {
    if |files| == 0 then 0
    else
      Tally(files[..|files| - 1], p, r, topology, now, v) + if Gets(files[|files| - 1], p, r, topology, now, v) then 1 else 0
  }

  function FindingsOf(findings: seq<StoredFinding>, evaluationId: string): nat {
    if |findings| == 0 then 0
    else FindingsOf(findings[..|findings| - 1], evaluationId)
         + if findings[|findings| - 1].evaluationId == evaluationId then 1 else 0
  }

  lemma FindingsSnoc(findings: seq<StoredFinding>, x: StoredFinding, id: string)
    ensures FindingsOf(findings + [x], id) == FindingsOf(findings, id) + if x.evaluationId == id then 1 else 0
  {
    assert (findings + [x])[..|findings|] == findings;
  }

  /** Contexts as loaded: nothing counted yet, and one evaluation id per policy. */
  ghost predicate Loaded(s: RunState) {
    && s.findings == []
    && (forall p :: p in s.policies ==>
          var c := s.policies[p];
          && c.filesEvaluated == 0 && c.filesSatisfied == 0 && c.filesViolated == 0 && c.filesUncertain == 0
          && c.filesSizeUnknown == 0 && c.bytesKnownTotal == 0 && c.bytesKnownAtRisk == 0 && c.validUntil == None)
    && (forall p, q :: p in s.policies && q in s.policies && p != q ==> s.policies[p].evaluationId != s.policies[q].evaluationId)
  }

  /** What never changes in a context. */
  predicate SameConfiguration(a: PolicyContext, b: PolicyContext) {
    && a.evaluationId == b.evaluationId && a.policyId == b.policyId && a.policyVersion == b.policyVersion
    && a.requirements == b.requirements && a.filesExpected == b.filesExpected
  }

  /** The verdicts counted for one policy are exactly those of its files, and they add up. */
  ghost predicate Balanced(files: seq<FileFact>, s: RunState, p: string, r: PolicyRequirements, topology: Assignments, now: nat)
    requires p in s.policies
  {
    var c := s.policies[p];
    && c.filesEvaluated == FilesOf(files, p)
    && c.filesEvaluated == c.filesSatisfied + c.filesViolated + c.filesUncertain
    && c.filesSatisfied == Tally(files, p, r, topology, now, Satisfied)
    && c.filesViolated == Tally(files, p, r, topology, now, Violated)
    && c.filesUncertain == Tally(files, p, r, topology, now, Uncertain)
    && FindingsOf(s.findings, c.evaluationId) == c.filesViolated + c.filesUncertain
    && c.filesSizeUnknown <= c.filesEvaluated && c.bytesKnownAtRisk <= c.bytesKnownTotal <= U64_MAX
  }

  ghost predicate OwnEvaluation(s: RunState) {
    forall p, q :: p in s.policies && q in s.policies && p != q ==> s.policies[p].evaluationId != s.policies[q].evaluationId
  }

  /** One more file keeps the books balanced. */
  lemma BalancedStep(init: seq<FileFact>, last: FileFact, s: RunState, s': RunState, p: string, r: PolicyRequirements,
                     topology: Assignments, now: nat)
    requires p in s.policies && s.policies[p].requirements == r && OwnEvaluation(s)
    requires Balanced(init, s, p, r, topology, now) && Stored(s, last, topology, now) == Ok(s')
    ensures p in s'.policies && Balanced(init + [last], s', p, r, topology, now)
  {
    hide Evaluate, Tally, FilesOf, FindingsOf;
    var c := s.policies[last.policyId];
    var e := Evaluate(last, c.requirements, topology, now).value;
    TallySnoc(init, last, p, r, topology, now);
    FindingsSnoc(s.findings, StoredFinding(c.evaluationId, last.fileRefId, e.verdict), s.policies[p].evaluationId);
    if last.policyId == p {
      var c' := s'.policies[p];
      assert c' == Counted(c, last, e);
      assert Gets(last, p, r, topology, now, e.verdict);
      assert forall v :: v != e.verdict ==> !Gets(last, p, r, topology, now, v);
    } else {
      assert s'.policies[p] == s.policies[p] && s.policies[p].evaluationId != c.evaluationId;
    }
  }

  predicate Gets(file: FileFact, p: string, r: PolicyRequirements, topology: Assignments, now: nat, v: Verdict) {
    file.policyId == p && Evaluate(file, r, topology, now).Ok? && Evaluate(file, r, topology, now).value.verdict == v
  }

  lemma TallySnoc(init: seq<FileFact>, last: FileFact, p: string, r: PolicyRequirements, topology: Assignments, now: nat)
    ensures FilesOf(init + [last], p) == FilesOf(init, p) + if last.policyId == p then 1 else 0
    ensures forall v :: Tally(init + [last], p, r, topology, now, v) ==
                        Tally(init, p, r, topology, now, v) + if Gets(last, p, r, topology, now, v) then 1 else 0
  {
    hide Evaluate;
    assert (init + [last])[..|init|] == init;
  }

  lemma {:induction false} RunBalanced(files: seq<FileFact>, s: RunState, topology: Assignments, now: nat, p: string)
    requires Loaded(s) && p in s.policies && EvaluateAll(files, s, topology, now).Ok?
    ensures var s' := EvaluateAll(files, s, topology, now).value;
            && s'.policies.Keys == s.policies.Keys
            && (forall q :: q in s.policies ==> SameConfiguration(s'.policies[q], s.policies[q]))
            && Balanced(files, s', p, s.policies[p].requirements, topology, now)
  {
    hide Evaluate, Balanced;
    if |files| > 0 {
      var init, last := files[..|files| - 1], files[|files| - 1];
      RunBalanced(init, s, topology, now, p);
      var before := EvaluateAll(init, s, topology, now).value;
      BalancedStep(init, last, before, EvaluateAll(files, s, topology, now).value, p, s.policies[p].requirements, topology, now);
      assert init + [last] == files;
    } else {
      StartBalanced(files, s, topology, now, p);
    }
  }

  lemma StartBalanced(files: seq<FileFact>, s: RunState, topology: Assignments, now: nat, p: string)
    requires Loaded(s) && p in s.policies && |files| == 0
    ensures Balanced(files, s, p, s.policies[p].requirements, topology, now)
  {
  }

  /** Reading the join evaluates every file once; with the expected counts of the same files,
      finishing can only be refused by a number that does not fit the database. */
  lemma RunComplete(files: seq<FileFact>, s: RunState, topology: Assignments, now: nat)
    requires DistinctFiles(files) && Loaded(s)
    requires forall p :: p in s.policies ==> s.policies[p].filesExpected == FilesOf(files, p)
    requires EvaluateAll(files, s, topology, now).Ok?
    ensures GroupRows(RowsOf(files)) == files
    ensures var s' := EvaluateAll(files, s, topology, now).value;
            && s'.policies.Keys == s.policies.Keys
            && (forall p :: p in s'.policies ==> Balanced(files, s', p, s.policies[p].requirements, topology, now))
            && (forall p :: p in s'.policies ==> (Finishable(s'.policies[p]) <==> FitsI64(s'.policies[p])))
  {
    hide EvaluateAll, Balanced, FitsI64, GroupRows, RowsOf, DistinctFiles, FilesOf;
    GroupingExact(files);
    var s' := EvaluateAll(files, s, topology, now).value;
    KeysKept(files, s, topology, now);
    forall p | p in s'.policies
      ensures Balanced(files, s', p, s.policies[p].requirements, topology, now)
              && (Finishable(s'.policies[p]) <==> FitsI64(s'.policies[p]))
    {
      RunBalanced(files, s, topology, now, p);
      BalancedCount(files, s', p, s.policies[p].requirements, topology, now);
    }
  }

  lemma {:induction false} KeysKept(files: seq<FileFact>, s: RunState, topology: Assignments, now: nat)
    requires EvaluateAll(files, s, topology, now).Ok?
    ensures EvaluateAll(files, s, topology, now).value.policies.Keys == s.policies.Keys
  {
    hide Evaluate;
    if |files| > 0 {
      KeysKept(files[..|files| - 1], s, topology, now);
    }
  }

  lemma BalancedCount(files: seq<FileFact>, s: RunState, p: string, r: PolicyRequirements, topology: Assignments, now: nat)
    requires p in s.policies && Balanced(files, s, p, r, topology, now)
    ensures s.policies[p].filesEvaluated == FilesOf(files, p)
  {
  }

  // ----- what a run adds up -----

  predicate AtRisk(file: FileFact, r: PolicyRequirements, topology: Assignments, now: nat) {
    Evaluate(file, r, topology, now).Ok? && Evaluate(file, r, topology, now).value.verdict != Satisfied
  }

  /** The known sizes of the policy's files, added up; of all of them, or of those at risk. */
  ghost function KnownBytes(files: seq<FileFact>, p: string, r: PolicyRequirements, topology: Assignments, now: nat, all: bool): nat {
    if |files| == 0 then 0
    else
      var file := files[|files| - 1];
      KnownBytes(files[..|files| - 1], p, r, topology, now, all)
      + if file.policyId == p && (all || AtRisk(file, r, topology, now)) && file.sizeBytes.Some? then file.sizeBytes.value else 0
  }

  ghost function UnknownSizes(files: seq<FileFact>, p: string): nat {
    if |files| == 0 then 0
    else
      var file := files[|files| - 1];
      UnknownSizes(files[..|files| - 1], p) + if file.policyId == p && file.sizeBytes.None? then 1 else 0
  }

  ghost function Capped(n: nat): nat { if n < 0x1_0000_0000_0000_0000 then n else 0xFFFF_FFFF_FFFF_FFFF }

  /** The byte counts of a policy are the sums over its files, cut off at the largest unsigned 64-bit integer. */
  lemma {:induction false} RunBytes(files: seq<FileFact>, s: RunState, topology: Assignments, now: nat, p: string)
    requires Loaded(s) && p in s.policies && EvaluateAll(files, s, topology, now).Ok?
    ensures p in EvaluateAll(files, s, topology, now).value.policies
    ensures var c, r := EvaluateAll(files, s, topology, now).value.policies[p], s.policies[p].requirements;
            && c.requirements == r
            && c.bytesKnownTotal == Capped(KnownBytes(files, p, r, topology, now, true))
            && c.bytesKnownAtRisk == Capped(KnownBytes(files, p, r, topology, now, false))
            && c.filesSizeUnknown == UnknownSizes(files, p)
  {
    hide Evaluate;
    if |files| > 0 {
      var init, last := files[..|files| - 1], files[|files| - 1];
      RunBytes(init, s, topology, now, p);
      KeysKept(init, s, topology, now);
    }
  }

  /** Some file of the policy is evaluated with this expiry. */
  ghost predicate SomeExpiry(files: seq<FileFact>, p: string, r: PolicyRequirements, topology: Assignments, now: nat, until: nat) {
    exists i :: 0 <= i < |files| && files[i].policyId == p && Evaluate(files[i], r, topology, now).Ok?
                && Evaluate(files[i], r, topology, now).value.validUntil == Some(until)
  }

  lemma ExpirySnoc(init: seq<FileFact>, last: FileFact, p: string, r: PolicyRequirements, topology: Assignments, now: nat)
    ensures forall until: nat :: SomeExpiry(init + [last], p, r, topology, now, until) <==>
              || SomeExpiry(init, p, r, topology, now, until)
              || (last.policyId == p && Evaluate(last, r, topology, now).Ok?
                  && Evaluate(last, r, topology, now).value.validUntil == Some(until))
  {
    hide Evaluate;
    assert (init + [last])[|init|] == last && forall i :: 0 <= i < |init| ==> (init + [last])[i] == init[i];
  }

  /** A run holds until the first expiry of one of its files. */
  lemma {:induction false} RunExpires(files: seq<FileFact>, s: RunState, topology: Assignments, now: nat, p: string)
    requires Loaded(s) && p in s.policies && EvaluateAll(files, s, topology, now).Ok?
    ensures p in EvaluateAll(files, s, topology, now).value.policies
    ensures var c, r := EvaluateAll(files, s, topology, now).value.policies[p], s.policies[p].requirements;
            && c.requirements == r
            && (c.validUntil.Some? ==> SomeExpiry(files, p, r, topology, now, c.validUntil.value))
            && (forall until: nat :: SomeExpiry(files, p, r, topology, now, until) ==> c.validUntil.Some? && c.validUntil.value <= until)
  {
    hide Evaluate, SomeExpiry;
    if |files| == 0 {
      NoExpiry(files, p, s.policies[p].requirements, topology, now);
    } else {
      var init, last := files[..|files| - 1], files[|files| - 1];
      RunExpires(init, s, topology, now, p);
      ExpirySnoc(init, last, p, s.policies[p].requirements, topology, now);
      assert init + [last] == files;
    }
  }

  lemma NoExpiry(files: seq<FileFact>, p: string, r: PolicyRequirements, topology: Assignments, now: nat)
    requires |files| == 0
    ensures forall until: nat :: !SomeExpiry(files, p, r, topology, now, until)
  {
  }

  /** The findings stored are those of the files that are not satisfied, in the order of the files. */
  lemma {:induction false} RunFinds(files: seq<FileFact>, s: RunState, topology: Assignments, now: nat)
    requires Loaded(s) && EvaluateAll(files, s, topology, now).Ok?
    ensures var s' := EvaluateAll(files, s, topology, now).value;
            && s'.policies.Keys == s.policies.Keys
            && (forall p :: p in s.policies ==> SameConfiguration(s'.policies[p], s.policies[p]))
            && forall x :: x in s'.findings <==> SomeFinding(files, s, topology, now, x)
  {
    hide Evaluate, SomeFinding, FoundFor, Stored;
    if |files| == 0 {
      assert forall x :: !SomeFinding(files, s, topology, now, x) by { NoFinding(files, s, topology, now); }
    } else {
      var init, last := files[..|files| - 1], files[|files| - 1];
      RunFinds(init, s, topology, now);
      var before, after := EvaluateAll(init, s, topology, now).value, EvaluateAll(files, s, topology, now).value;
      FindingSnoc(init, last, s, topology, now);
      StoredFinds(before, last, s, after, topology, now);
      assert init + [last] == files;
    }
  }

  ghost predicate SomeFinding(files: seq<FileFact>, s: RunState, topology: Assignments, now: nat, x: StoredFinding) {
    exists i :: 0 <= i < |files| && FoundFor(files[i], s, topology, now, x)
  }

  lemma NoFinding(files: seq<FileFact>, s: RunState, topology: Assignments, now: nat)
    requires |files| == 0
    ensures forall x :: !SomeFinding(files, s, topology, now, x)
  {
  }

  lemma FindingSnoc(init: seq<FileFact>, last: FileFact, s: RunState, topology: Assignments, now: nat)
    ensures forall x :: SomeFinding(init + [last], s, topology, now, x) <==>
                        SomeFinding(init, s, topology, now, x) || FoundFor(last, s, topology, now, x)
  {
    hide FoundFor;
    assert (init + [last])[|init|] == last && forall i :: 0 <= i < |init| ==> (init + [last])[i] == init[i];
  }

  lemma StoredFinds(before: RunState, file: FileFact, s: RunState, after: RunState, topology: Assignments, now: nat)
    requires Stored(before, file, topology, now) == Ok(after) && before.policies.Keys == s.policies.Keys
    requires forall p :: p in s.policies ==> SameConfiguration(before.policies[p], s.policies[p])
    ensures forall x :: x in after.findings <==> x in before.findings || FoundFor(file, s, topology, now, x)
    ensures after.policies.Keys == s.policies.Keys
    ensures forall p :: p in s.policies ==> SameConfiguration(after.policies[p], s.policies[p])
  {
    hide Evaluate;
  }

  /** The finding a file that is not satisfied leaves. */
  ghost predicate FoundFor(file: FileFact, s: RunState, topology: Assignments, now: nat, x: StoredFinding) {
    && file.policyId in s.policies && x.fileRefId == file.fileRefId && x.evaluationId == s.policies[file.policyId].evaluationId
    && Evaluate(file, s.policies[file.policyId].requirements, topology, now).Ok?
    && x.verdict == Evaluate(file, s.policies[file.policyId].requirements, topology, now).value.verdict != Satisfied
  }

  // ----- the cached rollup -----

  datatype ValidityRow = ValidityRow(
    status: string, filesExpected: int, filesEvaluated: int, evaluatedPolicyInputSeq: int,
    evaluationPolicyVersion: int, currentPolicyVersion: int, policyStatus: string, policyEnabled: int,
    validUntil: Option<int>, rulesVersion: int, rollupTotal: Option<int>, rollupSatisfied: Option<int>,
    rollupViolated: Option<int>, rollupUncertain: Option<int>, findingCount: int)

  predicate Counts(x: Option<int>) { x.Some? && x.value >= 0 }

  /** `invalid_evaluation_reason`. */
  function InvalidEvaluationReason(row: ValidityRow, policyInputEventSeq: nat, now: nat): Option<string> {
    if row.status != "complete" then Some("evaluation_incomplete")
    else if row.filesExpected < 0 || row.filesEvaluated < 0 then Some("invalid_file_count")
    else if row.filesExpected != row.filesEvaluated then Some("file_count_mismatch")
    else if row.evaluatedPolicyInputSeq != policyInputEventSeq then Some("policy_input_advanced")
    else if row.evaluationPolicyVersion < 0 || row.currentPolicyVersion < 0 then Some("invalid_policy_version")
    else if row.evaluationPolicyVersion != row.currentPolicyVersion then Some("policy_version_changed")
    else if row.policyStatus != "active" || row.policyEnabled != 1 then Some("policy_inactive")
    else if row.validUntil.Some? && row.validUntil.value < 0 then Some("invalid_valid_until")
    else if row.validUntil.Some? && row.validUntil.value <= now then Some("freshness_expired")
    else if row.rulesVersion != RULES_VERSION then Some("rules_version_changed")
    else if !Counts(row.rollupTotal) || !Counts(row.rollupSatisfied) || !Counts(row.rollupViolated) || !Counts(row.rollupUncertain)
    then Some("rollup_missing_or_invalid")
    else
      var classified := row.rollupSatisfied.value + row.rollupViolated.value + row.rollupUncertain.value;
      if classified > U64_MAX || row.rollupTotal.value != row.filesExpected || classified != row.rollupTotal.value
      then Some("rollup_count_mismatch")
      else if row.findingCount != row.rollupViolated.value + row.rollupUncertain.value then Some("finding_count_mismatch")
      else None
  }

  /** When a stored evaluation may be used. */
  lemma UsableExactly(row: ValidityRow, policyInputEventSeq: nat, now: nat)
    ensures InvalidEvaluationReason(row, policyInputEventSeq, now).None? <==>
            && row.status == "complete" && row.filesExpected == row.filesEvaluated >= 0
            && row.evaluatedPolicyInputSeq == policyInputEventSeq
            && row.evaluationPolicyVersion == row.currentPolicyVersion >= 0
            && row.policyStatus == "active" && row.policyEnabled == 1
            && (row.validUntil.Some? ==> now < row.validUntil.value)
            && row.rulesVersion == 1
            && row.rollupTotal == Some(row.filesExpected)
            && row.rollupSatisfied.Some? && row.rollupSatisfied.value >= 0
            && row.rollupViolated.Some? && row.rollupViolated.value >= 0
            && row.rollupUncertain.Some? && row.rollupUncertain.value >= 0
            && row.rollupSatisfied.value + row.rollupViolated.value + row.rollupUncertain.value
                 == row.filesExpected < 0x1_0000_0000_0000_0000
            && row.findingCount == row.rollupViolated.value + row.rollupUncertain.value
  {
  }

  /** A reason given is true of the row. */
  lemma ReasonHolds(row: ValidityRow, policyInputEventSeq: nat, now: nat)
    requires InvalidEvaluationReason(row, policyInputEventSeq, now).Some?
    ensures var reason := InvalidEvaluationReason(row, policyInputEventSeq, now).value;
            || (reason == "evaluation_incomplete" && row.status != "complete")
            || (reason == "invalid_file_count" && (row.filesExpected < 0 || row.filesEvaluated < 0))
            || (reason == "file_count_mismatch" && row.filesExpected != row.filesEvaluated)
            || (reason == "policy_input_advanced" && row.evaluatedPolicyInputSeq != policyInputEventSeq)
            || (reason == "invalid_policy_version" && (row.evaluationPolicyVersion < 0 || row.currentPolicyVersion < 0))
            || (reason == "policy_version_changed" && row.evaluationPolicyVersion != row.currentPolicyVersion)
            || (reason == "policy_inactive" && (row.policyStatus != "active" || row.policyEnabled != 1))
            || (reason == "invalid_valid_until" && row.validUntil.Some? && row.validUntil.value < 0)
            || (reason == "freshness_expired" && row.validUntil.Some? && 0 <= row.validUntil.value <= now)
            || (reason == "rules_version_changed" && row.rulesVersion != 1)
            || (reason == "rollup_missing_or_invalid"
                && !(Counts(row.rollupTotal) && Counts(row.rollupSatisfied) && Counts(row.rollupViolated) && Counts(row.rollupUncertain)))
            || (reason == "rollup_count_mismatch"
                && row.rollupTotal.Some? && row.rollupSatisfied.Some? && row.rollupViolated.Some? && row.rollupUncertain.Some?
                && !(row.rollupSatisfied.value + row.rollupViolated.value + row.rollupUncertain.value
                     == row.rollupTotal.value == row.filesExpected < 0x1_0000_0000_0000_0000))
            || (reason == "finding_count_mismatch" && row.rollupViolated.Some? && row.rollupUncertain.Some?
                && row.findingCount != row.rollupViolated.value + row.rollupUncertain.value)
  {
  }

  /** The row a finished evaluation leaves, while its policy stays as it was. */
  function FinishedRow(c: PolicyContext, policyInputSeq: nat, findingCount: nat): ValidityRow {
    ValidityRow("complete", c.filesExpected, c.filesEvaluated, policyInputSeq, c.policyVersion, c.policyVersion, "active", 1,
                if c.validUntil.Some? then Some(c.validUntil.value) else None, RULES_VERSION, Some(c.filesEvaluated),
                Some(c.filesSatisfied), Some(c.filesViolated), Some(c.filesUncertain), findingCount)
  }

  /** A finished evaluation is usable exactly until its first expiry. */
  lemma FinishedUsable(files: seq<FileFact>, s: RunState, p: string, r: PolicyRequirements, topology: Assignments,
                       t0: nat, policyInputSeq: nat, t: nat)
    requires p in s.policies && Balanced(files, s, p, r, topology, t0) && Finishable(s.policies[p])
    ensures var c := s.policies[p];
            InvalidEvaluationReason(FinishedRow(c, policyInputSeq, FindingsOf(s.findings, c.evaluationId)), policyInputSeq, t).None?
            <==> Before(t, c.validUntil)
  {
    hide Tally, FilesOf, FindingsOf;
  }

  /** No file of the policy has a timestamp in the future. */
  ghost predicate NoFutureFiles(files: seq<FileFact>, p: string, r: PolicyRequirements, now: nat) {
    forall i :: 0 <= i < |files| && files[i].policyId == p ==> NoFutureCopies(files[i].copies, files[i], r, now)
  }

  /** Re-evaluating one policy's files before the first expiry: nothing satisfied or violated is lost,
      and without future timestamps the whole context is the same. */
  lemma {:induction false} RerunAgrees(files: seq<FileFact>, s: RunState, topology: Assignments, t0: nat, t: nat, p: string)
    requires p in s.policies && s.policies[p].requirements.Valid() && t0 <= t
    requires EvaluateAll(files, s, topology, t0).Ok? && EvaluateAll(files, s, topology, t).Ok?
    requires p in EvaluateAll(files, s, topology, t0).value.policies
    requires Before(t, EvaluateAll(files, s, topology, t0).value.policies[p].validUntil)
    ensures p in EvaluateAll(files, s, topology, t).value.policies
    ensures var c0 := EvaluateAll(files, s, topology, t0).value.policies[p];
            var c := EvaluateAll(files, s, topology, t).value.policies[p];
            && c.requirements == c0.requirements == s.policies[p].requirements && c.filesEvaluated == c0.filesEvaluated
            && c.filesSatisfied >= c0.filesSatisfied && c.filesViolated >= c0.filesViolated
            && (NoFutureFiles(files, p, s.policies[p].requirements, t0) ==> c == c0)
  {
    hide Evaluate, NoFutureCopies;
    if |files| > 0 {
      var init, last := files[..|files| - 1], files[|files| - 1];
      KeysKept(init, s, topology, t0);
      KeysKept(init, s, topology, t);
      RerunAgrees(init, s, topology, t0, t, p);
      var r := s.policies[p].requirements;
      if NoFutureFiles(files, p, r, t0) {
        assert last == files[|files| - 1];
        forall i | 0 <= i < |init| && init[i].policyId == p ensures NoFutureCopies(init[i].copies, init[i], r, t0) {
          assert init[i] == files[i];
        }
      }
      if last.policyId == p {
        VerdictStable(last, r, topology, t0, t);
      }
    }
  }

  /** A cached rollup that is reported valid agrees with evaluating the same facts again. */
  lemma CacheJustified(files: seq<FileFact>, s: RunState, topology: Assignments, t0: nat, t: nat, p: string, policyInputSeq: nat)
    requires Loaded(s) && p in s.policies && s.policies[p].requirements.Valid() && t0 <= t
    requires EvaluateAll(files, s, topology, t0).Ok? && EvaluateAll(files, s, topology, t).Ok?
    requires s.policies[p].filesExpected == FilesOf(files, p)
    ensures p in EvaluateAll(files, s, topology, t0).value.policies && p in EvaluateAll(files, s, topology, t).value.policies
    ensures var s0 := EvaluateAll(files, s, topology, t0).value; var c0 := s0.policies[p];
            var c := EvaluateAll(files, s, topology, t).value.policies[p];
            FitsI64(c0) &&
            InvalidEvaluationReason(FinishedRow(c0, policyInputSeq, FindingsOf(s0.findings, c0.evaluationId)), policyInputSeq, t).None?
            ==>
              && c.filesEvaluated == c0.filesEvaluated
              && c.filesSatisfied >= c0.filesSatisfied && c.filesViolated >= c0.filesViolated
              && (NoFutureFiles(files, p, s.policies[p].requirements, t0) ==> c == c0)
  {
    hide EvaluateAll, InvalidEvaluationReason, FindingsOf, FilesOf, Balanced, NoFutureFiles;
    KeysKept(files, s, topology, t0);
    KeysKept(files, s, topology, t);
    var s0 := EvaluateAll(files, s, topology, t0).value;
    var c0 := s0.policies[p];
    RunBalanced(files, s, topology, t0, p);
    BalancedCount(files, s0, p, s.policies[p].requirements, topology, t0);
    if FitsI64(c0) {
      FinishedUsable(files, s0, p, s.policies[p].requirements, topology, t0, policyInputSeq, t);
      if Before(t, c0.validUntil) {
        RerunAgrees(files, s, topology, t0, t, p);
      }
    }
  }

  function SampleHuge(id: string): FileFact {
    SAMPLE_FILE.(fileRefId := id, sizeBytes := Some(0x4000_0000_0000_0000), copies := [])
  }

  const SAMPLE_RUN := RunState(
    map["policy" := PolicyContext("evaluation", "policy", 1, SAMPLE_RULES, 2, 0, 0, 0, 0, 0, 0, 0, None)], [])

  /** Two files of 2^62 bytes are evaluated completely, but the result cannot be stored. */
  lemma SampleTooLarge(now: nat)
    ensures var files := [SampleHuge("a"), SampleHuge("b")]; var r := EvaluateAll(files, SAMPLE_RUN, map[], now);
            && DistinctFiles(files) && Loaded(SAMPLE_RUN) && SAMPLE_RUN.policies["policy"].filesExpected == FilesOf(files, "policy")
            && r.Ok? && "policy" in r.value.policies
            && r.value.policies["policy"].filesEvaluated == r.value.policies["policy"].filesExpected
            && r.value.policies["policy"].bytesKnownTotal == I64_MAX + 1 && !Finishable(r.value.policies["policy"])
  {
    hide Evaluate, EvaluateAll, FilesOf;
    var a, b := SampleHuge("a"), SampleHuge("b");
    EvaluateSucceeds(a, SAMPLE_RULES, map[], now);
    EvaluateSucceeds(b, SAMPLE_RULES, map[], now);
    NothingEvaluated(SAMPLE_RUN, map[], now);
    AllSnoc([], a, SAMPLE_RUN, map[], now);
    AllSnoc([a], b, SAMPLE_RUN, map[], now);
    assert [] + [a] == [a] && [a] + [b] == [a, b];
    TwoFiles(a, b, "policy");
  }

  lemma TwoFiles(a: FileFact, b: FileFact, p: string)
    requires a.policyId == b.policyId == p
    ensures FilesOf([a, b], p) == 2
  {
    assert [a, b][..1] == [a] && [a][..0] == [];
    assert FilesOf([], p) == 0 && FilesOf([a], p) == 1;
  }
}
