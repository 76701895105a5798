/** The projected catalog tables: physical copies, their check history, and absent annex entries. */
module CompactProjection {
  import opened Wrappers

  datatype ProjectionError = ActivePathConflict | UniqueViolation

  datatype PathRef = PathRef(encoding: string, bytes: seq<nat>)

  datatype FileObject = FileObject(
    canonicalId: string, collectionId: nat, path: PathRef, contentId: Option<nat>, externalId: Option<nat>,
    identityState: string, active: bool, lastRecord: nat)

  /** A file at a location: a row of `file_locations`. */
  datatype Place = Place(
    fileId: nat, locationId: nat, representation: string, contentId: Option<nat>, externalId: Option<nat>, presence: bool,
    copyId: Option<nat>, latestPresence: Option<nat>, lastRecord: nat, seenTime: int, completeScan: Option<string>)

  /** A physical copy: a row of `copy_bindings`. */
  datatype Copy = Copy(
    canonicalId: string, owner: nat, locationId: nat, pathKey: string, locator: Option<PathRef>,
    contentId: Option<nat>, externalId: Option<nat>, basis: string, state: string, stateRecord: nat,
    latestPresence: Option<nat>, latestIntegrity: Option<nat>, completeScan: Option<string>)

  datatype CheckRow = CheckRow(place: nat, checkedAt: int, presence: int, integrity: int, error: Option<string>)

  datatype Identity = Identity(
    canonicalId: string, sourceKey: string, expectedChecksum: Option<nat>, expectedSize: Option<nat>,
    contentId: Option<nat>, resolution: string)

  /** An annex item whose bytes are absent. */
  datatype AbsentItem = AbsentItem(
    externalIdentityId: string, externalKey: string, expectedChecksum: Option<nat>, expectedSize: Option<nat>,
    resolution: string, fileRefId: string, collectionId: nat, path: PathRef, locked: bool,
    worktreeLocation: nat, casLocation: nat, sourceRepo: string)

  predicate Active(c: Copy) { c.state != "superseded" }

  predicate Physical(c: Copy) { c.state in {"present", "corrupt", "unknown"} && c.basis != "source_metadata" }

  const CAS_REPRESENTATIONS := {"annex_content", "annex_locked_symlink"}

  /** The path a copy lies at: its own locator, or the path of its owner's file. */
  function PathOf(files: map<nat, FileObject>, places: map<nat, Place>, c: Copy): Option<PathRef> {
    if c.locator.Some? then c.locator
    else if c.owner in places && places[c.owner].fileId in files then Some(files[places[c.owner].fileId].path) else None
  }

  /** The unique index on active copies. */
  predicate SameKey(a: Copy, b: Copy) { a.locationId == b.locationId && a.pathKey == b.pathKey }

  predicate IndexAllows(copies: map<nat, Copy>, id: nat, row: Copy) {
    Active(row) ==> forall other :: other in copies && other != id && Active(copies[other]) ==> !SameKey(copies[other], row)
  }

  ghost predicate IndexOk(copies: map<nat, Copy>) {
    forall a :: a in copies ==> IndexAllows(copies, a, copies[a])
  }

  ghost predicate Linked(files: map<nat, FileObject>, places: map<nat, Place>, copies: map<nat, Copy>) {
    && (forall p :: p in places ==> places[p].fileId in files)
    && (forall c :: c in copies ==> copies[c].owner in places)
    && (forall a, b :: a in copies && b in copies && copies[a].canonicalId == copies[b].canonicalId ==> a == b)
  }

  /** Every stored key is the key of the copy's path. */
  ghost predicate KeysTrue(keyOf: PathRef -> string, files: map<nat, FileObject>, places: map<nat, Place>, copies: map<nat, Copy>) {
    forall c :: c in copies ==> PathOf(files, places, copies[c]).Some? && copies[c].pathKey == keyOf(PathOf(files, places, copies[c]).value)
  }

  /** At most one active copy at any physical path of any location. */
  ghost predicate ActivePathsUnique(files: map<nat, FileObject>, places: map<nat, Place>, copies: map<nat, Copy>) {
    forall a, b :: a in copies && b in copies && a != b && Active(copies[a]) && Active(copies[b])
                   && copies[a].locationId == copies[b].locationId ==>
                   PathOf(files, places, copies[a]) != PathOf(files, places, copies[b])
  }

  lemma IndexMeansUniquePaths(keyOf: PathRef -> string, files: map<nat, FileObject>, places: map<nat, Place>, copies: map<nat, Copy>)
    requires IndexOk(copies) && KeysTrue(keyOf, files, places, copies)
    ensures ActivePathsUnique(files, places, copies)
  {
    forall a, b | a in copies && b in copies && a != b && Active(copies[a]) && Active(copies[b])
                  && copies[a].locationId == copies[b].locationId
      ensures PathOf(files, places, copies[a]) != PathOf(files, places, copies[b])
    {
      assert IndexAllows(copies, a, copies[a]);
    }
  }

  /** Changing one row keeps the index exactly when the index allows the new row. */
  lemma IndexUpdate(copies: map<nat, Copy>, id: nat, row: Copy)
    requires IndexOk(copies)
    ensures IndexOk(copies[id := row]) <==> IndexAllows(copies, id, row)
  {
    var after := copies[id := row];
    if IndexAllows(copies, id, row) {
      forall a | a in after ensures IndexAllows(after, a, after[a]) {
        if a != id { assert IndexAllows(copies, a, copies[a]); }
      }
    }
    if IndexOk(after) {
      assert IndexAllows(after, id, after[id]);
      forall other | other in copies && other != id && Active(copies[other]) && Active(row) ensures !SameKey(copies[other], row) {
        assert after[other] == copies[other];
      }
    }
  }

  /** Setting the state of a copy that is active anyway never meets the index; bringing a superseded
      copy back does exactly when another copy is active at its key. */
  lemma ReviveExactly(copies: map<nat, Copy>, id: nat, row: Copy)
    requires IndexOk(copies) && id in copies && Active(row) && SameKey(row, copies[id])
    ensures IndexAllows(copies, id, row) <==>
            Active(copies[id]) || forall other :: other in copies && other != id && Active(copies[other]) ==> !SameKey(copies[other], copies[id])
  {
    assert IndexAllows(copies, id, copies[id]);
  }

  const REVIVAL_FILES := map[
    10 := FileObject("file_a", 1, PathRef("utf8", [1]), Some(4), None, "resolved", true, 1)]

  const REVIVAL_PLACES := map[
    0 := Place(10, 7, "file", Some(4), None, true, Some(1), None, 1, 60, None)]

  /** A copy of earlier content at the path, superseded; and the copy that replaced it. */
  const REVIVAL_OLD := Copy("copy_old", 0, 7, "utf8", None, Some(3), None, "observed_bytes", "superseded", 1, None, None, None)
  const REVIVAL_NEW := Copy("copy_new", 0, 7, "utf8", None, Some(4), None, "observed_bytes", "present", 1, None, None, None)

  /** Valid tables in which marking the superseded copy corrupt is refused; without its rival it comes back. */
  lemma RevivalRefused()
    ensures var keyOf := (path: PathRef) => path.encoding;
            && TablesOk(keyOf, REVIVAL_FILES, REVIVAL_PLACES, map[0 := REVIVAL_OLD, 1 := REVIVAL_NEW])
            && TablesOk(keyOf, REVIVAL_FILES, REVIVAL_PLACES, map[0 := REVIVAL_OLD])
    ensures !Active(REVIVAL_OLD) && Active(REVIVAL_OLD.(state := "corrupt"))
    ensures !IndexAllows(map[0 := REVIVAL_OLD, 1 := REVIVAL_NEW], 0, REVIVAL_OLD.(state := "corrupt"))
    ensures IndexAllows(map[0 := REVIVAL_OLD], 0, REVIVAL_OLD.(state := "corrupt"))
  {
    var both := map[0 := REVIVAL_OLD, 1 := REVIVAL_NEW];
    assert 1 in both && Active(both[1]) && SameKey(both[1], REVIVAL_OLD.(state := "corrupt"));
  }

  /** What a projection of a check, or of absence, never loses. */
  ghost predicate HistoryKept(copies0: map<nat, Copy>, checks0: seq<CheckRow>, copies: map<nat, Copy>, checks: seq<CheckRow>) {
    && checks0 <= checks
    && (forall c :: c in copies0 ==> c in copies && (copies0[c].latestIntegrity.Some? ==> copies[c].latestIntegrity.Some?))
  }

  function Superseded(copies: map<nat, Copy>, previous: set<nat>, record: nat): map<nat, Copy> {
    map c | c in copies :: if c in previous then copies[c].(state := "superseded", stateRecord := record) else copies[c]
  }

  lemma SupersedeKeepsIndex(copies: map<nat, Copy>, previous: set<nat>, record: nat)
    requires IndexOk(copies)
    ensures IndexOk(Superseded(copies, previous, record))
  {
    var after := Superseded(copies, previous, record);
    forall a | a in after ensures IndexAllows(after, a, after[a]) {
      assert IndexAllows(copies, a, copies[a]);
      forall other | other in after && other != a && Active(after[other]) && Active(after[a]) ensures !SameKey(after[other], after[a]) {
        assert Active(copies[other]) && Active(copies[a]);
      }
    }
  }

  /** What one observation says about a copy. */
  datatype Observation = Observation(
    name: string, binding: nat, locationId: nat, path: PathRef, record: nat, contentId: Option<nat>, externalId: Option<nat>,
    state: string, basis: string, check: Option<nat>, integrity: int, verified: bool)

  /** Active copies of other identities at the observed path. */
  function Previous(keyOf: PathRef -> string, files: map<nat, FileObject>, places: map<nat, Place>, copies: map<nat, Copy>,
                    o: Observation): set<nat>
  {
    set c | c in copies && copies[c].locationId == o.locationId && Active(copies[c]) && copies[c].canonicalId != o.name
            && copies[c].pathKey == keyOf(o.path) && PathOf(files, places, copies[c]) == Some(o.path)
  }

  function PresenceCheckOf(o: Observation): Option<nat> {
    if o.state in {"present", "missing", "corrupt"} then o.check else None
  }

  function IntegrityCheckOf(o: Observation): Option<nat> { if o.integrity != 0 || o.verified then o.check else None }

  function NewCopy(keyOf: PathRef -> string, samePath: bool, o: Observation): Copy {
    Copy(o.name, o.binding, o.locationId, keyOf(o.path), if samePath then None else Some(o.path), o.contentId, o.externalId,
         o.basis, o.state, o.record, PresenceCheckOf(o), IntegrityCheckOf(o), None)
  }

  function Coalesce<T>(a: Option<T>, b: Option<T>): Option<T> { if a.Some? then a else b }

  /** `ON CONFLICT(canonical_id) DO UPDATE`: nothing is updated from source metadata alone. */
  function UpdatedCopy(row: Copy, o: Observation): Copy {
    if o.basis == "source_metadata" then row
    else row.(contentId := o.contentId, externalId := Coalesce(o.externalId, row.externalId), basis := o.basis, state := o.state,
               stateRecord := o.record, latestPresence := Coalesce(PresenceCheckOf(o), row.latestPresence),
               latestIntegrity := Coalesce(IntegrityCheckOf(o), row.latestIntegrity))
  }

  /** The physical path of a copy: its own locator, or else the path of its owner's file. */
  ghost predicate LiesAt(files: map<nat, FileObject>, places: map<nat, Place>, c: Copy, path: PathRef) {
    || c.locator == Some(path)
    || (c.locator.None? && c.owner in places && places[c.owner].fileId in files && files[places[c.owner].fileId].path == path)
  }

  /** Another copy that is active at the observed path. */
  ghost predicate IsRival(keyOf: PathRef -> string, files: map<nat, FileObject>, places: map<nat, Place>, c: Copy, o: Observation) {
    && c.locationId == o.locationId && c.state != "superseded" && c.canonicalId != o.name
    && c.pathKey == keyOf(o.path) && LiesAt(files, places, c, o.path)
  }

  /** The check an observation brings, if it says something about presence, or about integrity. */
  ghost predicate TakesCheck(o: Observation, presence: bool, before: Option<nat>, after: Option<nat>) {
    if o.check.Some? && (if presence then o.state == "present" || o.state == "missing" || o.state == "corrupt"
                         else o.integrity != 0 || o.verified)
    then after == o.check else after == before
  }

  /** The row of the observed copy: new, or changed as far as the observation says something. */
  ghost predicate RowObserved(before: Option<Copy>, after: Copy, o: Observation, samePath: bool, key: string) {
    && after.canonicalId == o.name
    && (before.Some? && o.basis == "source_metadata" ==> after == before.value)
    && (before.None? || o.basis != "source_metadata" ==>
          && after.state == o.state && after.stateRecord == o.record && after.contentId == o.contentId && after.basis == o.basis
          && (o.externalId.Some? || before.None? ==> after.externalId == o.externalId)
          && (o.externalId.None? && before.Some? ==> after.externalId == before.value.externalId)
          && TakesCheck(o, true, if before.Some? then before.value.latestPresence else None, after.latestPresence)
          && TakesCheck(o, false, if before.Some? then before.value.latestIntegrity else None, after.latestIntegrity))
    && (before.Some? ==>
          && after.owner == before.value.owner && after.locationId == before.value.locationId && after.pathKey == before.value.pathKey
          && after.locator == before.value.locator && after.completeScan == before.value.completeScan)
    && (before.None? ==>
          && after.owner == o.binding && after.locationId == o.locationId && after.pathKey == key
          && after.locator == (if samePath then None else Some(o.path)) && after.completeScan == None)
  }

  /** An observation supersedes the rivals at its path, records its copy, and touches no other copy. */
  ghost predicate ObservedAs(keyOf: PathRef -> string, files: map<nat, FileObject>, places0: map<nat, Place>, copies0: map<nat, Copy>,
                             o: Observation, id: nat, copies: map<nat, Copy>)
    requires o.binding in places0 && places0[o.binding].fileId in files
  {
    && copies.Keys == copies0.Keys + {id} && id in copies
    && RowObserved(if id in copies0 then Some(copies0[id]) else None, copies[id], o,
                   files[places0[o.binding].fileId].path == o.path, keyOf(o.path))
    && forall c :: c in copies0 && c != id ==>
         if IsRival(keyOf, files, places0, copies0[c], o)
         then copies[c] == copies0[c].(state := "superseded", stateRecord := o.record) else copies[c] == copies0[c]
  }

  lemma RivalExactly(keyOf: PathRef -> string, files: map<nat, FileObject>, places: map<nat, Place>, copies: map<nat, Copy>,
                     o: Observation, c: nat)
    requires c in copies
    ensures c in Previous(keyOf, files, places, copies, o) <==> IsRival(keyOf, files, places, copies[c], o)
  {
  }

  lemma ObservedIs(keyOf: PathRef -> string, files: map<nat, FileObject>, places: map<nat, Place>, copies0: map<nat, Copy>,
                   o: Observation, id: nat, kept: map<nat, Copy>, row: Copy)
    requires o.binding in places && places[o.binding].fileId in files
    requires kept == Superseded(copies0, Previous(keyOf, files, places, copies0, o), o.record)
    requires id in copies0 ==> copies0[id].canonicalId == o.name && row == UpdatedCopy(kept[id], o)
    requires id !in copies0 ==> row == NewCopy(keyOf, files[places[o.binding].fileId].path == o.path, o)
    ensures ObservedAs(keyOf, files, places, copies0, o, id, kept[id := row])
  {
    hide Previous, LiesAt;
    forall c | c in copies0 ensures c in Previous(keyOf, files, places, copies0, o) <==> IsRival(keyOf, files, places, copies0[c], o) {
      RivalExactly(keyOf, files, places, copies0, o, c);
    }
  }

  // ----- absence -----

  /** The copies an absent entry makes missing: those shared through the store of annexed content, or
      the one an unlocked path holds itself. */
  function AbsenceTargetsOf(copies: map<nat, Copy>, places: map<nat, Place>, item: AbsentItem, file: nat, external: nat): set<nat> {
    if item.locked then
      set c | c in copies && copies[c].externalId == Some(external) && copies[c].locationId == item.casLocation
              && Physical(copies[c]) && copies[c].owner in places && places[copies[c].owner].representation in CAS_REPRESENTATIONS
    else
      set p | p in places && places[p].fileId == file && places[p].locationId == item.worktreeLocation && places[p].copyId.Some?
              && places[p].copyId.value in copies && copies[places[p].copyId.value].locationId == item.worktreeLocation
              && Physical(copies[places[p].copyId.value]) && places[p].representation !in CAS_REPRESENTATIONS
            :: places[p].copyId.value
  }

  /** Does any copy of the content remain at the entry's own locations? */
  predicate StillHeld(copies: map<nat, Copy>, item: AbsentItem, external: nat) {
    exists c :: c in copies && copies[c].externalId == Some(external)
                && copies[c].locationId in {item.casLocation, item.worktreeLocation} && copies[c].state in {"present", "corrupt"}
  }

  function RemoveHints(availability: map<(nat, string), nat>, item: AbsentItem, external: nat, held: bool): map<(nat, string), nat> {
    var k := (external, item.sourceRepo);
    if !held && k in availability && availability[k] == item.casLocation then availability - {k} else availability
  }

  lemma HintsIdempotent(copies: map<nat, Copy>, availability: map<(nat, string), nat>, item: AbsentItem, external: nat)
    ensures var held := StillHeld(copies, item, external); var after := RemoveHints(availability, item, external, held);
            RemoveHints(after, item, external, held) == after
  {
  }

  function MarkMissing(places: map<nat, Place>, c: nat, record: nat, time: int, check: nat): map<nat, Place> {
    map p | p in places ::
      if places[p].copyId == Some(c) then places[p].(presence := false, lastRecord := record, seenTime := time, latestPresence := Some(check))
      else places[p]
  }

  predicate BoundTo(p: Place, cs: set<nat>) { p.copyId.Some? && p.copyId.value in cs }

  predicate OwnsOne(copies: map<nat, Copy>, p: nat, cs: set<nat>) { exists c :: c in cs && c in copies && copies[c].owner == p }

  /** Only the state of a copy changes, on the evidence of a new check of its owner. */
  ghost predicate MadeMissing(before: Copy, after: Copy, n0: nat, checks: seq<CheckRow>, record: nat) {
    && after == before.(state := "missing", stateRecord := record, latestPresence := after.latestPresence)
    && after.latestPresence.Some? && n0 <= after.latestPresence.value < |checks|
    && checks[after.latestPresence.value].place == before.owner
  }

  /** Every alias bound to a missing copy is marked missing; an owner only gets the new check. */
  ghost predicate PlaceAfterAbsence(before: Place, after: Place, bound: bool, owns: bool, n0: nat, record: nat, time: int) {
    if bound then
      && after == before.(presence := false, lastRecord := record, seenTime := time, latestPresence := after.latestPresence)
      && after.latestPresence.Some? && after.latestPresence.value >= n0
    else if owns then
      after == before.(latestPresence := after.latestPresence) && after.latestPresence.Some? && after.latestPresence.value >= n0
    else after == before
  }

  lemma TargetsPhysical(copies: map<nat, Copy>, places: map<nat, Place>, item: AbsentItem, file: nat, external: nat)
    ensures forall c :: c in AbsenceTargetsOf(copies, places, item, file, external) ==> c in copies && Physical(copies[c])
  {
  }

  /** The effect of absence on the copies `done`, from the tables with suffix 0. */
  ghost predicate AbsentSoFar(copies0: map<nat, Copy>, places0: map<nat, Place>, checks0: seq<CheckRow>,
                              copies: map<nat, Copy>, places: map<nat, Place>, checks: seq<CheckRow>,
                              done: set<nat>, record: nat, time: int)
  {
    && copies.Keys == copies0.Keys && places.Keys == places0.Keys
    && checks0 <= checks && |checks| == |checks0| + |done|
    && (forall k :: |checks0| <= k < |checks| ==> checks[k].checkedAt == time && checks[k].presence == 0 && checks[k].integrity == 0)
    && (forall c :: c in copies && c !in done ==> copies[c] == copies0[c])
    && (forall c :: c in copies && c in done ==> MadeMissing(copies0[c], copies[c], |checks0|, checks, record))
    && (forall p :: p in places ==> PlaceAfterAbsence(places0[p], places[p], BoundTo(places0[p], done), OwnsOne(copies0, p, done),
                                                     |checks0|, record, time))
  }

  /** One copy more is missing. */
  ghost predicate MarkedMissing(copies0: map<nat, Copy>, places0: map<nat, Place>, checks0: seq<CheckRow>, c: nat, record: nat, time: int,
                                copies: map<nat, Copy>, places: map<nat, Place>, checks: seq<CheckRow>)
  {
    var k := |checks0|;
    && c in copies0 && copies0[c].owner in places0
    && checks == checks0 + [CheckRow(copies0[c].owner, time, 0, 0, None)]
    && copies == copies0[c := copies0[c].(state := "missing", stateRecord := record, latestPresence := Some(k))]
    && places == MarkMissing(places0[copies0[c].owner := places0[copies0[c].owner].(latestPresence := Some(k))], c, record, time, k)
  }

  lemma MarkKeeps(places: map<nat, Place>, c: nat, record: nat, time: int, check: nat)
    ensures var after := MarkMissing(places, c, record, time, check);
            after.Keys == places.Keys && forall p :: p in places ==> after[p].fileId == places[p].fileId
  {
  }

  lemma NothingAbsentYet(copies: map<nat, Copy>, places: map<nat, Place>, checks: seq<CheckRow>, record: nat, time: int)
    ensures AbsentSoFar(copies, places, checks, copies, places, checks, {}, record, time)
  {
  }

  lemma StillToDo(copies0: map<nat, Copy>, places0: map<nat, Place>, checks0: seq<CheckRow>,
                  copies: map<nat, Copy>, places: map<nat, Place>, checks: seq<CheckRow>, done: set<nat>, record: nat, time: int, c: nat)
    requires AbsentSoFar(copies0, places0, checks0, copies, places, checks, done, record, time)
    requires c in copies0 && c !in done && Physical(copies0[c])
    ensures c in copies && copies[c] == copies0[c] && Active(copies[c])
  {
  }

  lemma PlacesStep(copies0: map<nat, Copy>, places0: map<nat, Place>, places1: map<nat, Place>, c: nat, owner: nat, done: set<nat>,
                   n0: nat, record: nat, time: int, check: nat)
    requires places1.Keys == places0.Keys && owner in places1 && c in copies0 && copies0[c].owner == owner && check >= n0
    requires forall p :: p in places1 ==> PlaceAfterAbsence(places0[p], places1[p], BoundTo(places0[p], done),
                                                           OwnsOne(copies0, p, done), n0, record, time)
    ensures var places3 := MarkMissing(places1[owner := places1[owner].(latestPresence := Some(check))], c, record, time, check);
            && places3.Keys == places0.Keys
            && forall p :: p in places3 ==> PlaceAfterAbsence(places0[p], places3[p], BoundTo(places0[p], done + {c}),
                                                             OwnsOne(copies0, p, done + {c}), n0, record, time)
  {
    var places3 := MarkMissing(places1[owner := places1[owner].(latestPresence := Some(check))], c, record, time, check);
    forall p | p in places3
      ensures PlaceAfterAbsence(places0[p], places3[p], BoundTo(places0[p], done + {c}), OwnsOne(copies0, p, done + {c}), n0, record, time)
    {
      assert PlaceAfterAbsence(places0[p], places1[p], BoundTo(places0[p], done), OwnsOne(copies0, p, done), n0, record, time);
      OwnsMore(copies0, p, done, c);
    }
  }

  lemma OwnsMore(copies: map<nat, Copy>, p: nat, done: set<nat>, c: nat)
    requires c in copies
    ensures OwnsOne(copies, p, done + {c}) <==> OwnsOne(copies, p, done) || p == copies[c].owner
  {
    if p == copies[c].owner { assert c in done + {c}; }
    if OwnsOne(copies, p, done) {
      var d :| d in done && d in copies && copies[d].owner == p;
      assert d in done + {c};
    }
  }

  lemma AbsenceStep(copies0: map<nat, Copy>, places0: map<nat, Place>, checks0: seq<CheckRow>,
                    copies1: map<nat, Copy>, places1: map<nat, Place>, checks1: seq<CheckRow>,
                    copies: map<nat, Copy>, places: map<nat, Place>, checks: seq<CheckRow>, done: set<nat>, record: nat, time: int, c: nat)
    requires AbsentSoFar(copies0, places0, checks0, copies1, places1, checks1, done, record, time) && c !in done
    requires MarkedMissing(copies1, places1, checks1, c, record, time, copies, places, checks)
    ensures AbsentSoFar(copies0, places0, checks0, copies, places, checks, done + {c}, record, time)
  {
    hide MarkMissing, PlaceAfterAbsence, OwnsOne, BoundTo;
    PlacesStep(copies0, places0, places1, c, copies1[c].owner, done, |checks0|, record, time, |checks1|);
    forall d | d in copies && d in done + {c} ensures MadeMissing(copies0[d], copies[d], |checks0|, checks, record) {
      if d != c { assert MadeMissing(copies0[d], copies1[d], |checks0|, checks1, record); }
    }
  }

  /** Afterwards nothing is left to make missing. */
  lemma NoTargetsLeft(copies0: map<nat, Copy>, places0: map<nat, Place>, checks0: seq<CheckRow>,
                      copies: map<nat, Copy>, places: map<nat, Place>, checks: seq<CheckRow>,
                      item: AbsentItem, file: nat, external: nat, targets: set<nat>, record: nat, time: int)
    requires AbsentSoFar(copies0, places0, checks0, copies, places, checks, targets, record, time)
    requires targets == AbsenceTargetsOf(copies0, places0, item, file, external)
    ensures AbsenceTargetsOf(copies, places, item, file, external) == {}
  {
    forall p | p in places
      ensures places[p].fileId == places0[p].fileId && places[p].locationId == places0[p].locationId
              && places[p].representation == places0[p].representation && places[p].copyId == places0[p].copyId
    {
      assert PlaceAfterAbsence(places0[p], places[p], BoundTo(places0[p], targets), OwnsOne(copies0, p, targets), |checks0|, record, time);
    }
    forall c | c in copies && c in targets ensures !Physical(copies[c]) {
      assert MadeMissing(copies0[c], copies[c], |checks0|, checks, record);
    }
  }

  lemma AbsenceHistory(copies0: map<nat, Copy>, places0: map<nat, Place>, checks0: seq<CheckRow>,
                       copies: map<nat, Copy>, places: map<nat, Place>, checks: seq<CheckRow>, targets: set<nat>, record: nat, time: int)
    requires AbsentSoFar(copies0, places0, checks0, copies, places, checks, targets, record, time)
    ensures HistoryKept(copies0, checks0, copies, checks)
  {
    hide PlaceAfterAbsence;
    forall c | c in copies0 ensures copies[c].latestIntegrity == copies0[c].latestIntegrity {
      if c in targets { assert MadeMissing(copies0[c], copies[c], |checks0|, checks, record); }
    }
  }

  lemma NothingChanged(copies0: map<nat, Copy>, places0: map<nat, Place>, checks0: seq<CheckRow>,
                       copies: map<nat, Copy>, places: map<nat, Place>, checks: seq<CheckRow>, record: nat, time: int)
    requires AbsentSoFar(copies0, places0, checks0, copies, places, checks, {}, record, time)
    ensures copies == copies0 && places == places0 && checks == checks0
  {
    forall p | p in places ensures places[p] == places0[p] {
      assert PlaceAfterAbsence(places0[p], places[p], BoundTo(places0[p], {}), OwnsOne(copies0, p, {}), |checks0|, record, time);
    }
    assert checks == checks0 + [];
  }

  /** Copies elsewhere, other copies of the content, and what they say of integrity are untouched. */
  lemma AbsenceIsLocal(copies0: map<nat, Copy>, places0: map<nat, Place>, checks0: seq<CheckRow>,
                       copies: map<nat, Copy>, places: map<nat, Place>, checks: seq<CheckRow>,
                       item: AbsentItem, file: nat, external: nat, record: nat, time: int)
    requires AbsentSoFar(copies0, places0, checks0, copies, places, checks,
                         AbsenceTargetsOf(copies0, places0, item, file, external), record, time)
    ensures forall c :: c in copies && copies[c] != copies0[c] ==>
              && copies0[c].locationId == (if item.locked then item.casLocation else item.worktreeLocation)
              && Physical(copies0[c]) && copies[c].state == "missing" && copies[c].latestIntegrity == copies0[c].latestIntegrity
              && copies[c].contentId == copies0[c].contentId && copies[c].externalId == copies0[c].externalId
    ensures forall p :: p in places && places[p].presence != places0[p].presence ==>
              !places[p].presence && BoundTo(places0[p], AbsenceTargetsOf(copies0, places0, item, file, external))
    ensures item.locked ==> forall c :: c in copies && copies[c] != copies0[c] ==> copies0[c].externalId == Some(external)
  {
    var targets := AbsenceTargetsOf(copies0, places0, item, file, external);
    forall c | c in copies && copies[c] != copies0[c] ensures c in targets && MadeMissing(copies0[c], copies[c], |checks0|, checks, record) {}
    forall p | p in places && places[p].presence != places0[p].presence ensures !places[p].presence && BoundTo(places0[p], targets) {
      assert PlaceAfterAbsence(places0[p], places[p], BoundTo(places0[p], targets), OwnsOne(copies0, p, targets), |checks0|, record, time);
    }
  }

  /** A copy the entry reports as gone: content in the annexed store for a locked entry, or the file an unlocked
      entry's own path holds; seen before, and not known from metadata alone. */
  ghost predicate GoesMissing(copies: map<nat, Copy>, places: map<nat, Place>, item: AbsentItem, file: nat, external: nat, c: nat) {
    && c in copies && (copies[c].state == "present" || copies[c].state == "corrupt" || copies[c].state == "unknown")
    && copies[c].basis != "source_metadata"
    && if item.locked then
         && copies[c].externalId == Some(external) && copies[c].locationId == item.casLocation
         && copies[c].owner in places && InAnnexStore(places[copies[c].owner])
       else
         && copies[c].locationId == item.worktreeLocation
         && exists p :: p in places && places[p].fileId == file && places[p].locationId == item.worktreeLocation
                        && places[p].copyId == Some(c) && !InAnnexStore(places[p])
  }

  ghost predicate InAnnexStore(p: Place) { p.representation == "annex_content" || p.representation == "annex_locked_symlink" }

  lemma AbsenceExactly(copies: map<nat, Copy>, places: map<nat, Place>, item: AbsentItem, file: nat, external: nat, c: nat)
    ensures c in AbsenceTargetsOf(copies, places, item, file, external) <==> GoesMissing(copies, places, item, file, external, c)
  {
    if !item.locked && GoesMissing(copies, places, item, file, external, c) {
      var p :| p in places && places[p].fileId == file && places[p].locationId == item.worktreeLocation
               && places[p].copyId == Some(c) && !InAnnexStore(places[p]);
      assert places[p].representation !in CAS_REPRESENTATIONS;
    }
  }

  /** What an absent entry records: those copies are missing, on a new check of their owner at this time; the paths
      that show such a copy are not present; and no other copy, and no other path's presence, changes. */
  lemma AbsenceRecords(copies0: map<nat, Copy>, places0: map<nat, Place>, checks0: seq<CheckRow>,
                       copies: map<nat, Copy>, places: map<nat, Place>, checks: seq<CheckRow>,
                       item: AbsentItem, external: nat, file: nat, record: nat, time: int)
    requires Absented(copies0, places0, checks0, copies, places, checks, item, external, file, record, time)
    ensures copies.Keys == copies0.Keys && places.Keys == places0.Keys
    ensures forall c :: c in copies ==>
              if GoesMissing(copies0, places0, item, file, external, c) then
                && copies[c] == copies0[c].(state := "missing", stateRecord := record, latestPresence := copies[c].latestPresence)
                && copies[c].latestPresence.Some? && |checks0| <= copies[c].latestPresence.value < |checks|
                && checks[copies[c].latestPresence.value] == CheckRow(copies0[c].owner, time, 0, 0, checks[copies[c].latestPresence.value].error)
              else copies[c] == copies0[c]
    ensures forall p :: p in places ==>
              if exists c :: places0[p].copyId == Some(c) && GoesMissing(copies0, places0, item, file, external, c) then
                && places[p] == places0[p].(presence := false, lastRecord := record, seenTime := time, latestPresence := places[p].latestPresence)
                && places[p].latestPresence.Some? && places[p].latestPresence.value >= |checks0|
              else places[p] == places0[p].(latestPresence := places[p].latestPresence)
  {
    hide GoesMissing, AbsenceTargetsOf;
    var targets := AbsenceTargetsOf(copies0, places0, item, file, external);
    forall c ensures c in targets <==> GoesMissing(copies0, places0, item, file, external, c) {
      AbsenceExactly(copies0, places0, item, file, external, c);
    }
    forall c | c in copies && c in targets ensures MadeMissing(copies0[c], copies[c], |checks0|, checks, record) {}
    forall p | p in places
      ensures PlaceAfterAbsence(places0[p], places[p], BoundTo(places0[p], targets), OwnsOne(copies0, p, targets), |checks0|, record, time)
    {
    }
  }

  /** An availability hint goes only when it names the entry's store in its own repository and no copy of the
      content is held at the store or the worktree any more. */
  lemma HintsExactly(copies: map<nat, Copy>, availability: map<(nat, string), nat>, item: AbsentItem, external: nat)
    ensures var after := RemoveHints(availability, item, external, StillHeld(copies, item, external));
            var held := exists c :: c in copies && copies[c].externalId == Some(external)
                          && (copies[c].locationId == item.casLocation || copies[c].locationId == item.worktreeLocation)
                          && (copies[c].state == "present" || copies[c].state == "corrupt");
            forall k :: k in availability ==>
              (if !held && k.0 == external && k.1 == item.sourceRepo && availability[k] == item.casLocation then k !in after
               else k in after && after[k] == availability[k])
    ensures RemoveHints(availability, item, external, StillHeld(copies, item, external)).Keys <= availability.Keys
  {
  }

  function FileStateOf(content: Option<nat>, resolution: string): string {
    if content.Some? then "resolved" else if resolution == "unsupported" then "unknown" else resolution
  }

  /** The file row an absent entry asks for. */
  predicate IsFile(f: FileObject, item: AbsentItem, content: Option<nat>, external: nat, state: string) {
    && f.canonicalId == item.fileRefId && f.externalId == Some(external) && f.contentId == content
    && f.identityState == state && f.active
  }

  lemma FileUnique(files: map<nat, FileObject>, identities: map<nat, Identity>, a: nat, b: nat, item: AbsentItem,
                   content: Option<nat>, external: nat, state: string, content': Option<nat>, external': nat, state': string)
    requires NamesUnique(files, identities) && a in files && b in files
    requires IsFile(files[a], item, content, external, state) && IsFile(files[b], item, content', external', state')
    ensures a == b
  {
  }

  lemma HistoryReflexive(copies: map<nat, Copy>, checks: seq<CheckRow>)
    ensures HistoryKept(copies, checks, copies, checks)
  {
  }

  // ----- the tables stay consistent -----

  ghost predicate TablesOk(keyOf: PathRef -> string, files: map<nat, FileObject>, places: map<nat, Place>, copies: map<nat, Copy>) {
    Linked(files, places, copies) && KeysTrue(keyOf, files, places, copies) && IndexOk(copies)
  }

  ghost predicate IdsBelow(copies: set<nat>, files: set<nat>, identities: set<nat>, bound: nat) {
    forall x :: x in copies || x in files || x in identities ==> x < bound
  }

  /** The key of a new identity is taken by another one. */
  predicate IdentityRefused(identities: map<nat, Identity>, item: AbsentItem) {
    && (forall i :: i in identities ==> identities[i].canonicalId != item.externalIdentityId)
    && exists i :: i in identities && identities[i].sourceKey == item.externalKey
  }

  /** No known identity is resolved or unresolved. */
  ghost predicate SameResolutions(identities0: map<nat, Identity>, identities: map<nat, Identity>) {
    forall i :: i in identities0 ==>
      i in identities && identities[i].contentId == identities0[i].contentId && identities[i].resolution == identities0[i].resolution
  }

  lemma IdentityUnique(files: map<nat, FileObject>, identities: map<nat, Identity>, a: nat, b: nat, item: AbsentItem)
    requires NamesUnique(files, identities)
    requires b in identities && identities[b].canonicalId == item.externalIdentityId
    ensures a in identities && identities[a].canonicalId == item.externalIdentityId ==> a == b
  {
  }

  lemma AbsentedIs(copies0: map<nat, Copy>, places0: map<nat, Place>, checks0: seq<CheckRow>,
                   copies: map<nat, Copy>, places: map<nat, Place>, checks: seq<CheckRow>,
                   item: AbsentItem, external: nat, file: nat, record: nat, time: int)
    requires AbsentSoFar(copies0, places0, checks0, copies, places, checks, AbsenceTargetsOf(copies0, places0, item, file, external), record, time)
    ensures Absented(copies0, places0, checks0, copies, places, checks, item, external, file, record, time)
  {
    hide AbsentSoFar, AbsenceTargetsOf;
  }

  predicate PathTaken(files: map<nat, FileObject>, collection: nat, path: PathRef, except: Option<nat>) {
    exists g :: g in files && Some(g) != except && files[g].active && files[g].collectionId == collection && files[g].path == path
  }

  /** Another active file has the path. */
  ghost predicate FileRefused(files: map<nat, FileObject>, item: AbsentItem) {
    || (exists f :: f in files && files[f].canonicalId == item.fileRefId && PathTaken(files, files[f].collectionId, files[f].path, Some(f)))
    || ((forall f :: f in files ==> files[f].canonicalId != item.fileRefId) && PathTaken(files, item.collectionId, item.path, None))
  }

  lemma RefusedOld(files: map<nat, FileObject>, identities: map<nat, Identity>, item: AbsentItem, f: nat)
    requires NamesUnique(files, identities) && f in files && files[f].canonicalId == item.fileRefId
    ensures FileRefused(files, item) <==> PathTaken(files, files[f].collectionId, files[f].path, Some(f))
  {
    hide PathTaken;
  }

  /** A file is refused exactly when another active file has the path it is to have: its own if it is known,
      else the entry's. */
  lemma FileRefusedExactly(files: map<nat, FileObject>, identities: map<nat, Identity>, item: AbsentItem)
    requires NamesUnique(files, identities)
    ensures FileRefused(files, item) <==>
            exists g :: g in files && files[g].active && files[g].canonicalId != item.fileRefId
              && if exists f :: f in files && files[f].canonicalId == item.fileRefId
                 then exists f :: f in files && files[f].canonicalId == item.fileRefId
                                  && files[f].collectionId == files[g].collectionId && files[f].path == files[g].path
                 else files[g].collectionId == item.collectionId && files[g].path == item.path
  {
    if f :| f in files && files[f].canonicalId == item.fileRefId {
      RefusedOld(files, identities, item, f);
    }
  }

  lemma RefusedNew(files: map<nat, FileObject>, item: AbsentItem)
    requires forall f :: f in files ==> files[f].canonicalId != item.fileRefId
    ensures FileRefused(files, item) <==> PathTaken(files, item.collectionId, item.path, None)
  {
    hide PathTaken;
  }

  /** What the first report of an absent entry does to the copies and places it is about. */
  ghost predicate Absented(copies0: map<nat, Copy>, places0: map<nat, Place>, checks0: seq<CheckRow>,
                           copies: map<nat, Copy>, places: map<nat, Place>, checks: seq<CheckRow>,
                           item: AbsentItem, external: nat, file: nat, record: nat, time: int)
  {
    AbsentSoFar(copies0, places0, checks0, copies, places, checks, AbsenceTargetsOf(copies0, places0, item, file, external), record, time)
  }

  ghost predicate NamesUnique(files: map<nat, FileObject>, identities: map<nat, Identity>) {
    && (forall a, b :: a in files && b in files && files[a].canonicalId == files[b].canonicalId ==> a == b)
    && (forall a, b :: a in identities && b in identities && identities[a].canonicalId == identities[b].canonicalId ==> a == b)
  }

  /** Columns of a place other than its file matter to no constraint. */
  lemma PlacesChanged(keyOf: PathRef -> string, files: map<nat, FileObject>, places0: map<nat, Place>, places: map<nat, Place>,
                      copies: map<nat, Copy>)
    requires TablesOk(keyOf, files, places0, copies)
    requires places.Keys == places0.Keys && forall p :: p in places ==> places[p].fileId == places0[p].fileId
    ensures TablesOk(keyOf, files, places, copies)
  {
    hide IndexOk;
    SamePaths(files, places0, places, copies);
  }

  /** A copy may change its state and evidence as the index allows. */
  lemma RowChanged(keyOf: PathRef -> string, files: map<nat, FileObject>, places: map<nat, Place>, copies: map<nat, Copy>, id: nat, row: Copy)
    requires TablesOk(keyOf, files, places, copies) && id in copies && IndexAllows(copies, id, row)
    requires row.owner == copies[id].owner && row.locator == copies[id].locator && row.canonicalId == copies[id].canonicalId
    requires SameKey(row, copies[id])
    ensures TablesOk(keyOf, files, places, copies[id := row])
  {
    hide IndexOk, IndexAllows;
    RowPath(files, places, copies, id, row);
    IndexUpdate(copies, id, row);
  }

  lemma CopyObserved(keyOf: PathRef -> string, files: map<nat, FileObject>, places: map<nat, Place>, copies: map<nat, Copy>,
                     o: Observation, id: nat, kept: map<nat, Copy>, row: Copy, existing: bool, checks: seq<CheckRow>)
    requires TablesOk(keyOf, files, places, copies) && o.binding in places
    requires kept == Superseded(copies, Previous(keyOf, files, places, copies, o), o.record) && IndexAllows(kept, id, row)
    requires existing ==> id in copies && copies[id].canonicalId == o.name && row == UpdatedCopy(kept[id], o)
    requires !existing ==> id !in copies && row == NewCopy(keyOf, files[places[o.binding].fileId].path == o.path, o)
    requires !existing ==> forall c :: c in copies ==> copies[c].canonicalId != o.name
    ensures TablesOk(keyOf, files, places[o.binding := places[o.binding].(copyId := Some(id))], kept[id := row])
    ensures HistoryKept(copies, checks, kept[id := row], checks)
  {
    hide IndexOk, IndexAllows, Previous, UpdatedCopy, NewCopy, PathOf;
    ObservedKeys(keyOf, files, places, copies, o, id, kept, row, existing);
    SupersedeKeepsIndex(copies, Previous(keyOf, files, places, copies, o), o.record);
    IndexUpdate(kept, id, row);
  }

  lemma FilesChanged(keyOf: PathRef -> string, files0: map<nat, FileObject>, files: map<nat, FileObject>, places: map<nat, Place>,
                     copies: map<nat, Copy>)
    requires TablesOk(keyOf, files0, places, copies) && forall f :: f in files0 ==> f in files && files[f].path == files0[f].path
    ensures TablesOk(keyOf, files, places, copies)
  {
    hide IndexOk;
    SameFilePaths(keyOf, files0, files, places, copies);
  }

  lemma TablesLinked(keyOf: PathRef -> string, files: map<nat, FileObject>, places: map<nat, Place>, copies: map<nat, Copy>)
    requires TablesOk(keyOf, files, places, copies)
    ensures forall p :: p in places ==> places[p].fileId in files
    ensures forall c :: c in copies ==> copies[c].owner in places
    ensures forall a, b :: a in copies && b in copies && copies[a].canonicalId == copies[b].canonicalId ==> a == b
    ensures IndexOk(copies)
  {
    hide IndexOk, KeysTrue;
  }

  // ----- paths stay what they are -----

  /** Neither links nor paths depend on the other columns of a place. */
  lemma SamePaths(files: map<nat, FileObject>, places0: map<nat, Place>, places: map<nat, Place>, copies: map<nat, Copy>)
    requires places.Keys == places0.Keys && forall p :: p in places ==> places[p].fileId == places0[p].fileId
    ensures Linked(files, places0, copies) ==> Linked(files, places, copies)
    ensures forall c :: c in copies ==> PathOf(files, places, copies[c]) == PathOf(files, places0, copies[c])
  {
  }

  lemma RowPath(files: map<nat, FileObject>, places: map<nat, Place>, copies: map<nat, Copy>, id: nat, row: Copy)
    requires id in copies && row.owner == copies[id].owner && row.locator == copies[id].locator && row.canonicalId == copies[id].canonicalId
    ensures PathOf(files, places, row) == PathOf(files, places, copies[id])
    ensures Linked(files, places, copies) ==> Linked(files, places, copies[id := row])
  {
  }

  lemma SameFilePaths(keyOf: PathRef -> string, files0: map<nat, FileObject>, files: map<nat, FileObject>, places: map<nat, Place>, copies: map<nat, Copy>)
    requires Linked(files0, places, copies) && forall f :: f in files0 ==> f in files && files[f].path == files0[f].path
    ensures Linked(files, places, copies)
    ensures KeysTrue(keyOf, files0, places, copies) ==> KeysTrue(keyOf, files, places, copies)
  {
  }

  /** The observed row carries the key of the observed path. */
  lemma ObservedKeys(keyOf: PathRef -> string, files: map<nat, FileObject>, places: map<nat, Place>, copies: map<nat, Copy>,
                     o: Observation, id: nat, kept: map<nat, Copy>, row: Copy, existing: bool)
    requires Linked(files, places, copies) && KeysTrue(keyOf, files, places, copies) && o.binding in places
    requires kept == Superseded(copies, Previous(keyOf, files, places, copies, o), o.record)
    requires existing ==> id in copies && copies[id].canonicalId == o.name && row == UpdatedCopy(kept[id], o)
    requires !existing ==> id !in copies && row == NewCopy(keyOf, files[places[o.binding].fileId].path == o.path, o)
    requires !existing ==> forall c :: c in copies ==> copies[c].canonicalId != o.name
    ensures var places' := places[o.binding := places[o.binding].(copyId := Some(id))];
            Linked(files, places', kept[id := row]) && KeysTrue(keyOf, files, places', kept[id := row])
    ensures forall c :: c in copies && copies[c].latestIntegrity.Some? ==> kept[id := row][c].latestIntegrity.Some?
  {
    hide Superseded, Previous, PathOf, UpdatedCopy, NewCopy;
    var places' := places[o.binding := places[o.binding].(copyId := Some(id))];
    var after := kept[id := row];
    SupersededRows(copies, Previous(keyOf, files, places, copies, o), o.record);
    if existing { UpdatedRow(kept[id], o); } else { NewRow(keyOf, files, places, o, id); }
    forall c | c in after
      ensures after[c].owner in places' && PathOf(files, places', after[c]).Some?
              && after[c].pathKey == keyOf(PathOf(files, places', after[c]).value)
    {
      if c in copies { SamePath(files, places, places', copies[c], after[c]); }
    }
    ObservedNames(copies, o, id, kept, row, existing);
  }

  lemma UpdatedRow(row: Copy, o: Observation)
    requires row.canonicalId == o.name
    ensures var after := UpdatedCopy(row, o);
            && after.canonicalId == o.name && after.owner == row.owner && after.locator == row.locator && after.pathKey == row.pathKey
            && (row.latestIntegrity.Some? ==> after.latestIntegrity.Some?)
  {
  }

  lemma NewRow(keyOf: PathRef -> string, files: map<nat, FileObject>, places: map<nat, Place>, o: Observation, id: nat)
    requires o.binding in places && places[o.binding].fileId in files
    ensures var places' := places[o.binding := places[o.binding].(copyId := Some(id))];
            var row := NewCopy(keyOf, files[places[o.binding].fileId].path == o.path, o);
            && row.canonicalId == o.name && row.owner in places'
            && PathOf(files, places', row) == Some(o.path) && row.pathKey == keyOf(o.path)
  {
  }

  /** The path of a copy depends on its own locator, and on which file its owner is. */
  lemma SamePath(files: map<nat, FileObject>, a: map<nat, Place>, b: map<nat, Place>, c: Copy, c': Copy)
    requires a.Keys == b.Keys && (forall p :: p in a ==> a[p].fileId == b[p].fileId)
    requires c'.owner == c.owner && c'.locator == c.locator
    ensures PathOf(files, b, c') == PathOf(files, a, c)
  {
  }

  lemma ObservedNames(copies: map<nat, Copy>, o: Observation, id: nat, kept: map<nat, Copy>, row: Copy, existing: bool)
    requires forall a, b :: a in copies && b in copies && copies[a].canonicalId == copies[b].canonicalId ==> a == b
    requires kept.Keys == copies.Keys && forall c :: c in copies ==> kept[c].canonicalId == copies[c].canonicalId
    requires row.canonicalId == o.name
    requires if existing then id in copies && copies[id].canonicalId == o.name
             else id !in copies && forall c :: c in copies ==> copies[c].canonicalId != o.name
    ensures var after := kept[id := row];
            forall a, b :: a in after && b in after && after[a].canonicalId == after[b].canonicalId ==> a == b
  {
    var after := kept[id := row];
    forall a, b | a in after && b in after && after[a].canonicalId == after[b].canonicalId ensures a == b {
      assert a in copies ==> after[a].canonicalId == copies[a].canonicalId;
      assert b in copies ==> after[b].canonicalId == copies[b].canonicalId;
    }
  }

  lemma SupersededRows(copies: map<nat, Copy>, previous: set<nat>, record: nat)
    ensures Superseded(copies, previous, record).Keys == copies.Keys
    ensures forall c :: c in copies ==>
              Superseded(copies, previous, record)[c] ==
              copies[c].(state := Superseded(copies, previous, record)[c].state, stateRecord := Superseded(copies, previous, record)[c].stateRecord)
  {
  }

  lemma IdFree(copies: set<nat>, files: set<nat>, identities: set<nat>, bound: nat)
    requires IdsBelow(copies, files, identities, bound)
    ensures bound !in copies && bound !in files && bound !in identities
  {
  }

  lemma IdsMore(copies: set<nat>, files: set<nat>, identities: set<nat>, bound: nat, id: nat, bound': nat)
    requires IdsBelow(copies, files, identities, bound) && bound <= bound' && (id in copies || id < bound')
    ensures IdsBelow(copies + {id}, files, identities, bound')
  {
  }

  lemma RowName(kept: map<nat, Copy>, id: nat, o: Observation, keyOf: PathRef -> string, samePath: bool, existing: bool)
    requires existing ==> id in kept && kept[id].canonicalId == o.name
    ensures (if existing then UpdatedCopy(kept[id], o) else NewCopy(keyOf, samePath, o)).canonicalId == o.name
  {
  }

  /** A copy's canonical id determines its location and path. */
  ghost predicate Determined(files: map<nat, FileObject>, places: map<nat, Place>, copies: map<nat, Copy>, o: Observation) {
    forall c :: c in copies && copies[c].canonicalId == o.name ==>
      copies[c].locationId == o.locationId && PathOf(files, places, copies[c]) == Some(o.path)
  }

  /** A different path with the same key is active: the only thing the unique index then refuses. */
  ghost predicate Collision(keyOf: PathRef -> string, files: map<nat, FileObject>, places: map<nat, Place>, copies: map<nat, Copy>,
                            o: Observation)
  {
    exists c :: c in copies && Active(copies[c]) && copies[c].canonicalId != o.name && copies[c].locationId == o.locationId
                && copies[c].pathKey == keyOf(o.path) && PathOf(files, places, copies[c]) != Some(o.path)
  }

  lemma RefusedExactly(keyOf: PathRef -> string, files: map<nat, FileObject>, places: map<nat, Place>, copies: map<nat, Copy>,
                       o: Observation, id: nat, kept: map<nat, Copy>, row: Copy, existing: bool)
    requires TablesOk(keyOf, files, places, copies)
    requires kept == Superseded(copies, Previous(keyOf, files, places, copies, o), o.record)
    requires existing ==> id in copies && copies[id].canonicalId == o.name && row == UpdatedCopy(kept[id], o)
    requires !existing ==> id !in copies && exists samePath :: row == NewCopy(keyOf, samePath, o)
    requires !existing ==> forall c :: c in copies ==> copies[c].canonicalId != o.name
    ensures Determined(files, places, copies, o) && !IndexAllows(kept, id, row) ==> Collision(keyOf, files, places, copies, o)
    ensures Determined(files, places, copies, o) && Collision(keyOf, files, places, copies, o) && Active(row) ==> !IndexAllows(kept, id, row)
    ensures o.state != "superseded" && o.basis != "source_metadata" ==> Active(row)
  {
    hide PathOf;
    if Determined(files, places, copies, o) {
      assert row.locationId == o.locationId && row.pathKey == keyOf(o.path);
      if !IndexAllows(kept, id, row) {
        var c :| c in kept && c != id && Active(kept[c]) && SameKey(kept[c], row);
        assert Active(copies[c]) && c !in Previous(keyOf, files, places, copies, o);
        assert copies[c].canonicalId != o.name by {
          if existing && copies[c].canonicalId == o.name { TablesLinked(keyOf, files, places, copies); }
        }
      }
      if Collision(keyOf, files, places, copies, o) {
        var c :| c in copies && Active(copies[c]) && copies[c].canonicalId != o.name && copies[c].locationId == o.locationId
                 && copies[c].pathKey == keyOf(o.path) && PathOf(files, places, copies[c]) != Some(o.path);
        assert c in kept && kept[c] == copies[c] && c != id;
      }
    }
  }

  class Catalog {
    const keyOf: PathRef -> string
    var files: map<nat, FileObject>
    var places: map<nat, Place>
    var copies: map<nat, Copy>
    var checks: seq<CheckRow>
    var identities: map<nat, Identity>
    var availability: map<(nat, string), nat>  // identity and source repository to location
    var nextId: nat

    constructor (keyOf: PathRef -> string)
      ensures Valid() && this.keyOf == keyOf && copies == map[] && checks == []
    {
      this.keyOf := keyOf;
      files, places, copies, checks, identities, availability, nextId := map[], map[], map[], [], map[], map[], 0;
    }

    ghost predicate Valid()
      reads this
    {
      && TablesOk(keyOf, files, places, copies)
      && IdsBelow(copies.Keys, files.Keys, identities.Keys, nextId) && NamesUnique(files, identities)
    }

    /** `append_check`: history only grows; presence -1 leaves the latest presence alone. */
    method AppendCheck(binding: nat, time: int, presence: int, integrity: int, error: Option<string>) returns (id: nat)
      requires Valid() && binding in places
      modifies this`checks, this`places
      ensures Valid()
      ensures id == |old(checks)| && checks == old(checks) + [CheckRow(binding, time, presence, integrity, error)]
      ensures places == if presence >= 0 then old(places)[binding := old(places)[binding].(latestPresence := Some(id))] else old(places)
    {
      hide TablesOk, IdsBelow, NamesUnique;
      id := |checks|;
      checks := checks + [CheckRow(binding, time, presence, integrity, error)];
      if presence >= 0 {
        places := places[binding := places[binding].(latestPresence := Some(id))];
        PlacesChanged(keyOf, files, old(places), places, copies);
      }
    }

    method FindCopy(name: string) returns (r: Option<nat>)
      ensures r.Some? ==> r.value in copies && copies[r.value].canonicalId == name
      ensures r.None? ==> forall c :: c in copies ==> copies[c].canonicalId != name
    {
      if c :| c in copies && copies[c].canonicalId == name {
        return Some(c);
      }
      return None;
    }

    /** `copy`: supersede other identities at the path, then insert or update this one. */
    method ObserveCopy(o: Observation) returns (r: Result<nat, ProjectionError>)
      requires Valid() && o.binding in places
      modifies this`copies, this`places, this`nextId
      ensures Valid()
      ensures r.Err? ==> copies == old(copies) && places == old(places)
      ensures r == Err(ActivePathConflict) <==>
                o.basis == "source_metadata" && Previous(keyOf, files, old(places), old(copies), o) != {}
      ensures r.Ok? ==>
                var kept := Superseded(old(copies), Previous(keyOf, files, old(places), old(copies), o), o.record);
                && r.value in copies && copies[r.value].canonicalId == o.name
                && places == old(places)[o.binding := old(places)[o.binding].(copyId := Some(r.value))]
                && (r.value in old(copies) ==> copies == kept[r.value := UpdatedCopy(kept[r.value], o)])
                && (r.value !in old(copies) ==>
                      copies == kept[r.value := NewCopy(keyOf, files[old(places)[o.binding].fileId].path == o.path, o)]
                      && forall c :: c in old(copies) ==> old(copies)[c].canonicalId != o.name)
      ensures r.Ok? ==> ObservedAs(keyOf, files, old(places), old(copies), o, r.value, copies)
      ensures Determined(files, old(places), old(copies), o) && r == Err(UniqueViolation) ==>
                Collision(keyOf, files, old(places), old(copies), o)
      ensures Determined(files, old(places), old(copies), o) && o.state != "superseded" && o.basis != "source_metadata" ==>
                (r == Err(UniqueViolation) <==> Collision(keyOf, files, old(places), old(copies), o))
      ensures HistoryKept(old(copies), old(checks), copies, checks)
    {
      hide TablesOk, IdsBelow, NamesUnique, IndexAllows, Previous, Superseded, UpdatedCopy, NewCopy, HistoryKept, IndexOk, Determined, Collision,
           ObservedAs;
      HistoryReflexive(copies, checks);
      TablesLinked(keyOf, files, places, copies);
      var samePath := files[places[o.binding].fileId].path == o.path;
      var previous := Previous(keyOf, files, places, copies, o);
      if previous != {} && o.basis == "source_metadata" {
        return Err(ActivePathConflict);
      }
      var kept := Superseded(copies, previous, o.record);
      SupersededRows(copies, previous, o.record);
      var existing := FindCopy(o.name);
      var id := if existing.Some? then existing.value else nextId;
      IdFree(copies.Keys, files.Keys, identities.Keys, nextId);
      var row := if existing.Some? then UpdatedCopy(kept[id], o) else NewCopy(keyOf, samePath, o);
      RefusedExactly(keyOf, files, places, copies, o, id, kept, row, existing.Some?);
      if !IndexAllows(kept, id, row) {
        return Err(UniqueViolation);
      }
      CopyObserved(keyOf, files, places, copies, o, id, kept, row, existing.Some?, checks);
      RowName(kept, id, o, keyOf, samePath, existing.Some?);
      ObservedIs(keyOf, files, places, copies, o, id, kept, row);
      copies := kept[id := row];
      places := places[o.binding := places[o.binding].(copyId := Some(id))];
      if existing.None? {
        nextId := nextId + 1;
      }
      assert copies.Keys == old(copies).Keys + {id};
      IdsMore(old(copies).Keys, files.Keys, identities.Keys, old(nextId), id, nextId);
      return Ok(id);
    }

    /** Verification failed on a known copy: its state changes even if it was superseded. */
    method FailCopy(id: nat, mismatch: bool, record: nat, time: int, error: string) returns (r: Result<(), ProjectionError>)
      requires Valid() && id in copies
      modifies this`copies, this`places, this`checks
      ensures Valid()
      ensures r.Ok? <==> Active(old(copies)[id]) ||
                         forall other :: other in old(copies) && other != id && Active(old(copies)[other]) ==> !SameKey(old(copies)[other], old(copies)[id])
      ensures r.Ok? ==>
                var k := |old(checks)|;
                && checks == old(checks) + [CheckRow(old(copies)[id].owner, time, if mismatch then 1 else -1, if mismatch then 2 else 0, Some(error))]
                && copies == old(copies)[id := old(copies)[id].(
                     state := if mismatch then "corrupt" else "unknown", stateRecord := record,
                     latestPresence := if mismatch then Some(k) else old(copies)[id].latestPresence, latestIntegrity := Some(k))]
      ensures r.Err? ==> copies == old(copies) && places == old(places) && checks == old(checks)
    {
      hide TablesOk, IdsBelow, NamesUnique, IndexAllows, IndexOk;
      TablesLinked(keyOf, files, places, copies);
      var k := |checks|;
      var row := copies[id].(state := if mismatch then "corrupt" else "unknown", stateRecord := record,
                             latestPresence := if mismatch then Some(k) else copies[id].latestPresence, latestIntegrity := Some(k));
      ReviveExactly(copies, id, row);
      if !IndexAllows(copies, id, row) {
        return Err(UniqueViolation);
      }
      var check := AppendCheck(copies[id].owner, time, if mismatch then 1 else -1, if mismatch then 2 else 0, Some(error));
      RowChanged(keyOf, files, places, copies, id, row);
      assert copies.Keys == copies[id := row].Keys;
      copies := copies[id := row];
      return Ok(());
    }

    function AbsenceTargets(item: AbsentItem, file: nat, external: nat): set<nat>
      reads this
    {
      AbsenceTargetsOf(copies, places, item, file, external)
    }

    /** One copy and every alias bound to it become missing, on one new check of the copy's owner. */
    method MarkCopyMissing(c: nat, record: nat, time: int)
      requires Valid() && c in copies && Active(copies[c])
      modifies this`copies, this`places, this`checks
      ensures Valid()
      ensures MarkedMissing(old(copies), old(places), old(checks), c, record, time, copies, places, checks)
    {
      hide TablesOk, IdsBelow, NamesUnique, IndexAllows, IndexOk, MarkMissing;
      ghost var copies1 := copies;
      TablesLinked(keyOf, files, places, copies);
      var check := AppendCheck(copies[c].owner, time, 0, 0, None);
      ghost var places2 := places;
      var row := copies[c].(state := "missing", stateRecord := record, latestPresence := Some(check));
      ReviveExactly(copies, c, row);
      RowChanged(keyOf, files, places, copies, c, row);
      assert copies.Keys == copies[c := row].Keys;
      copies := copies[c := row];
      places := MarkMissing(places, c, record, time, check);
      MarkKeeps(places2, c, record, time, check);
      PlacesChanged(keyOf, files, places2, places, copies);
    }

    /** `project_annex_absence`. */
    method ProjectAbsence(item: AbsentItem, file: nat, external: nat, record: nat, time: int)
      requires Valid()
      modifies this`copies, this`places, this`checks, this`availability
      ensures Valid() && HistoryKept(old(copies), old(checks), copies, checks)
      ensures AbsentSoFar(old(copies), old(places), old(checks), copies, places, checks,
                          old(AbsenceTargets(item, file, external)), record, time)
      ensures AbsenceTargets(item, file, external) == {}
      ensures availability == RemoveHints(old(availability), item, external, StillHeld(copies, item, external))
    {
      hide TablesOk, IdsBelow, NamesUnique, StillHeld, AbsenceTargetsOf, RemoveHints, AbsentSoFar, MarkedMissing, HistoryKept;
      var targets := AbsenceTargets(item, file, external);
      ghost var copies0, places0, checks0 := copies, places, checks;
      TargetsPhysical(copies, places, item, file, external);
      var left := targets;
      assert targets - left == {};
      NothingAbsentYet(copies, places, checks, record, time);
      while left != {}
        invariant left <= targets && Valid() && availability == old(availability)
        invariant AbsentSoFar(copies0, places0, checks0, copies, places, checks, targets - left, record, time)
        decreases left
      {
        var c :| c in left;
        ghost var done, copies1, places1, checks1 := targets - left, copies, places, checks;
        StillToDo(copies0, places0, checks0, copies, places, checks, done, record, time, c);
        MarkCopyMissing(c, record, time);
        AbsenceStep(copies0, places0, checks0, copies1, places1, checks1, copies, places, checks, done, record, time, c);
        left := left - {c};
        assert targets - left == done + {c};
      }
      assert targets - left == targets;
      AbsenceHistory(copies0, places0, checks0, copies, places, checks, targets, record, time);
      NoTargetsLeft(copies0, places0, checks0, copies, places, checks, item, file, external, targets, record, time);
      availability := RemoveHints(availability, item, external, StillHeld(copies, item, external));
    }

    /** The identity row of an absent entry; without content it never resolves or unresolves anything. */
    method UpsertIdentity(item: AbsentItem) returns (r: Result<nat, ProjectionError>)
      requires Valid()
      modifies this`identities, this`nextId
      ensures Valid()
      ensures r.Err? <==> IdentityRefused(old(identities), item)
      ensures r.Err? ==> identities == old(identities)
      ensures r.Ok? ==>
                && r.value in identities && identities[r.value].canonicalId == item.externalIdentityId
                && identities[r.value].expectedChecksum == item.expectedChecksum && identities[r.value].expectedSize == item.expectedSize
                && (r.value in old(identities) ==>
                      identities == old(identities)[r.value := old(identities)[r.value].(expectedChecksum := item.expectedChecksum, expectedSize := item.expectedSize)])
                && (r.value !in old(identities) ==>
                      && identities == old(identities)[r.value := identities[r.value]] && identities[r.value].contentId == None
                      && forall i :: i in old(identities) ==> old(identities)[i].canonicalId != item.externalIdentityId)
    {
      if i :| i in identities && identities[i].canonicalId == item.externalIdentityId {
        var row := identities[i];
        if row.expectedChecksum != item.expectedChecksum || row.expectedSize != item.expectedSize {
          identities := identities[i := row.(expectedChecksum := item.expectedChecksum, expectedSize := item.expectedSize)];
        } else {
          assert identities[i := row] == identities;
        }
        return Ok(i);
      }
      if exists i :: i in identities && identities[i].sourceKey == item.externalKey {
        return Err(UniqueViolation);
      }
      var id := nextId;
      identities := identities[id := Identity(item.externalIdentityId, item.externalKey, item.expectedChecksum, item.expectedSize, None, item.resolution)];
      nextId := nextId + 1;
      return Ok(id);
    }

    /** `file`, for an entry without content of its own. */
    method UpsertFile(item: AbsentItem, content: Option<nat>, external: nat, state: string, record: nat) returns (r: Result<nat, ProjectionError>)
      requires Valid()
      modifies this`files, this`nextId
      ensures Valid() && (r.Err? ==> files == old(files))
      ensures r.Err? ==> FileRefused(old(files), item)
      ensures FileRefused(old(files), item) ==> r.Err?
      ensures r.Ok? ==> r.value in files && IsFile(files[r.value], item, content, external, state)
      ensures r.Ok? ==> files == old(files)[r.value := files[r.value]]
      ensures r.Ok? ==> forall f :: f in old(files) ==> files[f].path == old(files)[f].path
    {
      hide TablesOk, FileRefused, PathTaken;
      if f :| f in files && files[f].canonicalId == item.fileRefId {
        RefusedOld(files, identities, item, f);
        if PathTaken(files, files[f].collectionId, files[f].path, Some(f)) {
          return Err(UniqueViolation);
        }
        var after := files[f := files[f].(contentId := content, externalId := Some(external), identityState := state, active := true, lastRecord := record)];
        FilesChanged(keyOf, files, after, places, copies);
        files := after;
        return Ok(f);
      }
      RefusedNew(files, item);
      if PathTaken(files, item.collectionId, item.path, None) {
        return Err(UniqueViolation);
      }
      var f := nextId;
      var after := files[f := FileObject(item.fileRefId, item.collectionId, item.path, content, Some(external), state, true, record)];
      FilesChanged(keyOf, files, after, places, copies);
      files := after;
      nextId := nextId + 1;
      return Ok(f);
    }

    /** `project_annex_observation` for an absent, not inventoried entry. Reported again, at any later time,
        it changes nothing at all. */
    method ProjectAbsentEntry(item: AbsentItem, record: nat, time: int) returns (r: Result<(), ProjectionError>)
      requires Valid()
      modifies this
      ensures Valid() && HistoryKept(old(copies), old(checks), copies, checks)
      ensures r.Ok? ==> EntrySettled(item)
      ensures r.Ok? ==> exists external, f :: SettledWith(item, external, f)
                          && Absented(old(copies), old(places), old(checks), copies, places, checks, item, external, f, record, time)
      ensures r.Ok? ==> SameResolutions(old(identities), identities)
      ensures r.Err? ==> IdentityRefused(old(identities), item) || FileRefused(old(files), item)
      ensures old(EntrySettled(item)) ==>
                && r.Ok? && files == old(files) && places == old(places) && copies == old(copies) && checks == old(checks)
                && identities == old(identities) && availability == old(availability)
    {
      hide TablesOk, IdsBelow, StillHeld, HistoryKept, AbsenceTargetsOf, RemoveHints, IsFile, FileStateOf, AbsentSoFar, PathTaken,
           SettledWith, Absented, NamesUnique;
      HistoryReflexive(copies, checks);
      ghost var settled := EntrySettled(item);
      ghost var external0: nat, file0: nat := 0, 0;
      if settled {
        external0, file0 :| SettledWith(item, external0, file0);
        SettledParts(item, external0, file0);
      }
      ghost var identities0 := identities;
      var identity := UpsertIdentity(item);
      if identity.Err? {
        return Err(identity.error);
      }
      var external := identity.value;
      if settled { IdentityUnique(files, identities0, external, external0, item); }
      var content := identities[external].contentId;
      var state := FileStateOf(content, item.resolution);
      var found := EnsureFile(item, content, external, state, record);
      if found.Err? {
        return Err(found.error);
      }
      var fid := found.value;
      if settled { FileUnique(files, identities, fid, file0, item, content, external, state, content, external, state); }
      ghost var places1, copies1, checks1 := places, copies, checks;
      ProjectAbsence(item, fid, external, record, time);
      HintsIdempotent(copies, old(availability), item, external);
      Settled(item, external, fid);
      AbsentedIs(copies1, places1, checks1, copies, places, checks, item, external, fid, record, time);
      if settled { NothingChanged(copies1, places1, checks1, copies, places, checks, record, time); }
      return Ok(());
    }

    /** The file of an entry: left alone when it already says all this, else inserted or updated. */
    method EnsureFile(item: AbsentItem, content: Option<nat>, external: nat, state: string, record: nat) returns (r: Result<nat, ProjectionError>)
      requires Valid()
      modifies this`files, this`nextId
      ensures Valid()
      ensures r.Ok? ==> r.value in files && IsFile(files[r.value], item, content, external, state)
      ensures (exists f :: f in old(files) && IsFile(old(files)[f], item, content, external, state)) ==> r.Ok? && files == old(files)
      ensures r.Err? ==> FileRefused(old(files), item)
    {
      hide TablesOk, IdsBelow, IsFile, FileRefused, NamesUnique;
      r := Ok(0);
      var found := FindFile(item, content, external, state);
      if found.Some? {
        return Ok(found.value);
      }
      r := UpsertFile(item, content, external, state, record);
    }

    lemma SettledParts(item: AbsentItem, external: nat, f: nat)
      requires SettledWith(item, external, f)
      ensures external in identities && identities[external].canonicalId == item.externalIdentityId
      ensures identities[external].(expectedChecksum := item.expectedChecksum, expectedSize := item.expectedSize) == identities[external]
      ensures f in files && IsFile(files[f], item, identities[external].contentId, external, FileStateOf(identities[external].contentId, item.resolution))
      ensures AbsenceTargets(item, f, external) == {}
      ensures RemoveHints(availability, item, external, StillHeld(copies, item, external)) == availability
    {
    }

    /** What a settled entry has recorded: the key with what is expected of it, and the file, active again, with the
        content and the state of the key. */
    lemma SettledSays(item: AbsentItem, external: nat, f: nat)
      requires SettledWith(item, external, f)
      ensures external in identities && f in files
      ensures var key, file := identities[external], files[f];
              && key.canonicalId == item.externalIdentityId
              && key.expectedChecksum == item.expectedChecksum && key.expectedSize == item.expectedSize
              && file.canonicalId == item.fileRefId && file.externalId == Some(external) && file.active
              && file.contentId == key.contentId
              && file.identityState == (if key.contentId.Some? then "resolved"
                                        else if item.resolution == "unsupported" then "unknown" else item.resolution)
      ensures forall c :: !GoesMissing(copies, places, item, f, external, c)
    {
      hide AbsenceTargetsOf, GoesMissing;
      forall c ensures !GoesMissing(copies, places, item, f, external, c) {
        AbsenceExactly(copies, places, item, f, external, c);
      }
    }

    lemma Settled(item: AbsentItem, external: nat, f: nat)
      requires external in identities && identities[external].canonicalId == item.externalIdentityId
      requires identities[external].expectedChecksum == item.expectedChecksum && identities[external].expectedSize == item.expectedSize
      requires f in files && IsFile(files[f], item, identities[external].contentId, external, FileStateOf(identities[external].contentId, item.resolution))
      requires AbsenceTargets(item, f, external) == {}
      requires RemoveHints(availability, item, external, StillHeld(copies, item, external)) == availability
      ensures SettledWith(item, external, f)
    {
    }

    method FindFile(item: AbsentItem, content: Option<nat>, external: nat, state: string) returns (r: Option<nat>)
      ensures r.Some? ==> r.value in files && IsFile(files[r.value], item, content, external, state)
      ensures r.None? ==> forall f :: f in files ==> !IsFile(files[f], item, content, external, state)
    {
      if f :| f in files && IsFile(files[f], item, content, external, state) {
        return Some(f);
      }
      return None;
    }

    ghost predicate SettledWith(item: AbsentItem, external: nat, f: nat)
      reads this
    {
      && external in identities && identities[external].canonicalId == item.externalIdentityId
      && identities[external].expectedChecksum == item.expectedChecksum && identities[external].expectedSize == item.expectedSize
      && f in files && IsFile(files[f], item, identities[external].contentId, external, FileStateOf(identities[external].contentId, item.resolution))
      && AbsenceTargets(item, f, external) == {}
      && RemoveHints(availability, item, external, StillHeld(copies, item, external)) == availability
    }

    /** Everything an absent entry has to say is already recorded. */
    ghost predicate EntrySettled(item: AbsentItem)
      reads this
    {
      exists external, f :: SettledWith(item, external, f)
    }
  }
}
