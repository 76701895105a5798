/** Finalizing a complete scan: presence checks, target pages, and the prepared lookup sets. */
module ScanFinalization {
  import opened Wrappers
  import opened CompactProjection

  const PAGE_SIZE: nat := 512

  /** One pass over targets in the order of their ids. */
  datatype Phase = MissingPaths | MissingCopies | SeenPaths | SeenCopies

  datatype CopyTarget = CopyTarget(covered: bool, present: bool)

  /** The scan being finalized; candidates were recorded while it ran. */
  datatype Scan = Scan(
    scanId: string, locationId: nat, collectionId: nat, batch: string, record: nat, startTime: int, finishedTime: int,
    missingPaths: set<nat>, missingCopies: set<string>, batchOf: map<nat, string>)

  // ----- the prepared lookup sets -----

  function PathsOf(files: map<nat, FileObject>, places: map<nat, Place>, scan: Scan): set<PathRef> {
    set p | p in places && places[p].fileId in files && places[p].locationId == scan.locationId
            && files[places[p].fileId].collectionId == scan.collectionId && places[p].representation != "annex_content"
          :: files[places[p].fileId].path
  }

  function PresentPathsOf(files: map<nat, FileObject>, places: map<nat, Place>, scan: Scan): set<PathRef> {
    set p | p in places && places[p].fileId in files && places[p].locationId == scan.locationId
            && places[p].completeScan == Some(scan.scanId) && places[p].presence && places[p].representation != "annex_content"
          :: files[places[p].fileId].path
  }

  function AnnexIdsOf(places: map<nat, Place>, scan: Scan): set<nat> {
    set p | p in places && places[p].locationId == scan.locationId && places[p].completeScan == Some(scan.scanId)
            && places[p].presence && places[p].representation == "annex_locked_symlink" && places[p].externalId.Some?
          :: places[p].externalId.value
  }

  predicate IsTarget(c: Copy, scan: Scan) { c.locationId == scan.locationId && c.state in {"present", "corrupt", "unknown"} }

  /** Directly, for one copy: does some logical path of the collection at the location cover it? */
  ghost predicate CoveredDirectly(files: map<nat, FileObject>, places: map<nat, Place>, c: Copy, scan: Scan) {
    exists p :: p in places && places[p].fileId in files && places[p].locationId == scan.locationId
                && files[places[p].fileId].collectionId == scan.collectionId && places[p].representation != "annex_content"
                && PathOf(files, places, c) == Some(files[places[p].fileId].path)
  }

  ghost predicate PresentDirectly(files: map<nat, FileObject>, places: map<nat, Place>, c: Copy, scan: Scan) {
    || (exists p :: p in places && places[p].fileId in files && places[p].locationId == scan.locationId
                    && places[p].completeScan == Some(scan.scanId) && places[p].presence && places[p].representation != "annex_content"
                    && PathOf(files, places, c) == Some(files[places[p].fileId].path))
    || (exists p :: p in places && places[p].locationId == scan.locationId && places[p].completeScan == Some(scan.scanId)
                    && places[p].presence && places[p].representation == "annex_locked_symlink" && places[p].externalId.Some?
                    && places[p].externalId == c.externalId)
  }

  predicate InPaths(paths: set<PathRef>, path: Option<PathRef>) { path.Some? && path.value in paths }

  /** The flags computed through the lookup sets are the direct per-copy predicates. */
  lemma LookupExact(files: map<nat, FileObject>, places: map<nat, Place>, c: Copy, scan: Scan)
    ensures InPaths(PathsOf(files, places, scan), PathOf(files, places, c)) <==> CoveredDirectly(files, places, c, scan)
    ensures InPaths(PresentPathsOf(files, places, scan), PathOf(files, places, c)) || (c.externalId.Some? && c.externalId.value in AnnexIdsOf(places, scan))
            <==> PresentDirectly(files, places, c, scan)
  {
    hide PathOf;
  }

  /** Checks appended since `n0` are for different places or presences, all remembered. */
  ghost predicate OncePerPresence(seen: map<(nat, int), nat>, checks: seq<CheckRow>, n0: nat) {
    && n0 <= |checks|
    && (forall k :: n0 <= k < |checks| ==> (checks[k].place, checks[k].presence) in seen)
    && (forall i, j :: n0 <= i < j < |checks| ==> (checks[i].place, checks[i].presence) != (checks[j].place, checks[j].presence))
  }

  /** A new latest presence never makes an equal presence look older. */
  ghost predicate NotOlder(before: Option<nat>, after: Option<nat>, checks: seq<CheckRow>) {
    before.Some? && after.Some? && before.value < |checks| && after.value < |checks|
    && checks[before.value].presence == checks[after.value].presence ==>
      checks[before.value].checkedAt <= checks[after.value].checkedAt
  }

  ghost predicate CheckRefs(places: map<nat, Place>, checks: seq<CheckRow>) {
    forall p :: p in places && places[p].latestPresence.Some? ==> places[p].latestPresence.value < |checks|
  }

  ghost predicate CopyRefs(copies: map<nat, Copy>, checks: seq<CheckRow>) {
    forall c :: c in copies && copies[c].latestPresence.Some? ==> copies[c].latestPresence.value < |checks|
  }

  lemma CopyRefsGrow(copies: map<nat, Copy>, checks0: seq<CheckRow>, checks: seq<CheckRow>)
    requires CopyRefs(copies, checks0) && checks0 <= checks
    ensures CopyRefs(copies, checks)
  {
  }

  lemma CopyRefsNext(copies: map<nat, Copy>, checks0: seq<CheckRow>, checks: seq<CheckRow>, id: nat, row: Copy)
    requires CopyRefs(copies, checks0) && checks0 <= checks
    requires row.latestPresence.Some? && row.latestPresence.value < |checks|
    ensures CopyRefs(copies, checks) && CopyRefs(copies[id := row], checks)
  {
  }

  ghost predicate SeenRefs(seen: map<(nat, int), nat>, checks: seq<CheckRow>) {
    forall k :: k in seen ==> seen[k] < |checks| && checks[seen[k]].presence == k.1
  }

  lemma SeenRefsNext(seen: map<(nat, int), nat>, checks0: seq<CheckRow>, checks: seq<CheckRow>, k: (nat, int), id: nat)
    requires SeenRefs(seen, checks0) && checks0 <= checks && id < |checks| && checks[id].presence == k.1
    ensures SeenRefs(seen[k := id], checks)
  {
  }

  lemma SeenRefsAt(seen: map<(nat, int), nat>, checks: seq<CheckRow>, k: (nat, int))
    requires SeenRefs(seen, checks) && k in seen
    ensures seen[k] < |checks| && checks[seen[k]].presence == k.1
  {
  }

  /** The latest presence is an existing check with this presence. */
  predicate Shows(latest: Option<nat>, checks: seq<CheckRow>, presence: int) {
    latest.Some? && latest.value < |checks| && checks[latest.value].presence == presence
  }

  function Later(a: int, b: int): int { if a >= b then a else b }

  function PresenceOf(phase: Phase): int { if phase.MissingPaths? || phase.MissingCopies? then 0 else 1 }

  predicate OverPaths(phase: Phase) { phase.MissingPaths? || phase.SeenPaths? }

  /** The copy is active, or no other active copy has its key. */
  ghost predicate Revivable(id: nat, copies: map<nat, Copy>) {
    id in copies
    && (Active(copies[id]) || forall other :: other in copies && other != id && Active(copies[other]) ==> !SameKey(copies[other], copies[id]))
  }

  /** A superseded candidate shares its key with an active copy or with another candidate. */
  ghost predicate ReviveRefused(copies: map<nat, Copy>, scan: Scan) {
    exists c, o :: c in copies && o in copies && c != o && Clashes(copies, scan, c, o)
  }

  predicate Clashes(copies: map<nat, Copy>, scan: Scan, c: nat, o: nat)
    requires c in copies && o in copies
  {
    && copies[c].canonicalId in scan.missingCopies && !Active(copies[c]) && SameKey(copies[c], copies[o])
    && (Active(copies[o]) || copies[o].canonicalId in scan.missingCopies)
  }

  /** No superseded copy revived so far shares its key with an active or a revived copy. */
  ghost predicate RevivedApart(copies: map<nat, Copy>, done: seq<nat>) {
    forall c, o :: c in done && c in copies && o in copies && c != o && !Active(copies[c]) && SameKey(copies[c], copies[o]) ==>
      !Active(copies[o]) && o !in done
  }

  lemma NothingRevived(copies: map<nat, Copy>)
    ensures RevivedApart(copies, [])
  {
  }

  /** What a phase leaves of the row of one of its targets, apart from the latest presence. */
  predicate PlaceDone(phase: Phase, scan: Scan, before: Place, after: Place) {
    after == match phase
             case MissingPaths => before.(presence := false, completeScan := Some(scan.scanId), lastRecord := scan.record,
                                          latestPresence := after.latestPresence)
             case _ => before.(seenTime := Later(before.seenTime, scan.startTime), latestPresence := after.latestPresence)
  }

  predicate CopyDone(phase: Phase, scan: Scan, before: Copy, after: Copy) {
    after == match phase
             case MissingCopies => before.(state := "missing", stateRecord := scan.record, completeScan := Some(scan.scanId),
                                           latestPresence := after.latestPresence)
             case _ => before.(latestPresence := after.latestPresence)
  }

  /** A phase has treated exactly the rows `done`, and, over copies, at most rechecked their owners. */
  ghost predicate PhaseDone(phase: Phase, scan: Scan, done: seq<nat>, places0: map<nat, Place>, copies0: map<nat, Copy>,
                            places: map<nat, Place>, copies: map<nat, Copy>, checks: seq<CheckRow>)
  {
    && places.Keys == places0.Keys && copies.Keys == copies0.Keys
    && (forall p :: p in places ==>
          if !OverPaths(phase) then places[p] == places0[p].(latestPresence := places[p].latestPresence)
          else if p in done then PlaceDone(phase, scan, places0[p], places[p]) && Shows(places[p].latestPresence, checks, PresenceOf(phase))
          else places[p] == places0[p])
    && (forall c :: c in copies ==>
          if !OverPaths(phase) && c in done then
            CopyDone(phase, scan, copies0[c], copies[c]) && Shows(copies[c].latestPresence, checks, PresenceOf(phase))
          else copies[c] == copies0[c])
  }

  // ----- how fresh the latest presence stays -----

  function TimeOf(phase: Phase, scan: Scan): int {
    if phase.MissingPaths? || phase.MissingCopies? then scan.finishedTime else scan.startTime
  }

  /** A content observation of this very batch, already checked with this presence. */
  predicate DirectRow(p: Place, checks: seq<CheckRow>, scan: Scan, presence: int) {
    && Shows(p.latestPresence, checks, presence) && checks[p.latestPresence.value].integrity in {1, 2}
    && p.contentId.Some? && p.lastRecord in scan.batchOf && scan.batchOf[p.lastRecord] == scan.batch
  }

  predicate ShowsLater(latest: Option<nat>, checks: seq<CheckRow>, presence: int, time: int) {
    Shows(latest, checks, presence) && checks[latest.value].checkedAt > time
  }

  /** The time a presence check leaves as the latest: what is known of this presence, if direct or newer. */
  function PresenceTime(p: Place, checks: seq<CheckRow>, scan: Scan, time: int, presence: int): int {
    if DirectRow(p, checks, scan, presence) || ShowsLater(p.latestPresence, checks, presence, time)
    then checks[p.latestPresence.value].checkedAt else time
  }

  /** The earlier check stays the latest when it is newer, or when this batch observed the content itself: its
      integrity was checked, and the place was last recorded in the batch. */
  lemma PresenceTimeExactly(p: Place, checks: seq<CheckRow>, scan: Scan, time: int, presence: int)
    ensures PresenceTime(p, checks, scan, time, presence) ==
            if p.latestPresence.Some? && p.latestPresence.value < |checks| && checks[p.latestPresence.value].presence == presence
               && (|| checks[p.latestPresence.value].checkedAt > time
                   || ((checks[p.latestPresence.value].integrity == 1 || checks[p.latestPresence.value].integrity == 2)
                       && p.contentId.Some? && p.lastRecord in scan.batchOf && scan.batchOf[p.lastRecord] == scan.batch))
            then checks[p.latestPresence.value].checkedAt else time
  {
  }

  predicate CheckIs(latest: Option<nat>, checks: seq<CheckRow>, presence: int, time: int) {
    Shows(latest, checks, presence) && checks[latest.value].checkedAt == time
  }

  predicate SameEvidence(a: Place, b: Place) {
    a.latestPresence == b.latestPresence && a.contentId == b.contentId && a.lastRecord == b.lastRecord
  }

  /** Since `places0`, the places in the cache were each checked once with presence `q`; no other was. */
  ghost predicate Rechecked(q: int, time: int, scan: Scan, places0: map<nat, Place>, checks0: seq<CheckRow>,
                            places: map<nat, Place>, checks: seq<CheckRow>, seen: map<(nat, int), nat>)
  {
    && checks0 <= checks && places.Keys == places0.Keys && CheckRefs(places0, checks0)
    && forall p :: p in places ==>
         if (p, q) in seen
         then places[p].latestPresence == Some(seen[(p, q)])
              && CheckIs(places[p].latestPresence, checks, q, PresenceTime(places0[p], checks0, scan, time, q))
         else SameEvidence(places0[p], places[p])
  }

  /** One check of `b` with presence `q`, remembered. */
  ghost predicate CheckedOnce(q: int, time: int, scan: Scan, b: nat, places0: map<nat, Place>, checks0: seq<CheckRow>,
                              seen0: map<(nat, int), nat>, places: map<nat, Place>, checks: seq<CheckRow>, seen: map<(nat, int), nat>)
  {
    && checks0 <= checks && places.Keys == places0.Keys && b in places0
    && (b, q) in seen && seen == seen0[(b, q) := seen[(b, q)]]
    && (forall p :: p in places && p != b ==> places[p] == places0[p])
    && (if (b, q) in seen0 then checks == checks0 && seen == seen0 && places[b].latestPresence in {Some(seen0[(b, q)]), places0[b].latestPresence}
        else places[b].latestPresence == Some(seen[(b, q)])
             && CheckIs(Some(seen[(b, q)]), checks, q, PresenceTime(places0[b], checks0, scan, time, q)))
  }

  lemma RecheckedNext(q: int, time: int, scan: Scan, b: nat, start: map<nat, Place>, startChecks: seq<CheckRow>,
                      places0: map<nat, Place>, checks0: seq<CheckRow>, seen0: map<(nat, int), nat>,
                      places: map<nat, Place>, checks: seq<CheckRow>, seen: map<(nat, int), nat>)
    requires Rechecked(q, time, scan, start, startChecks, places0, checks0, seen0)
    requires CheckedOnce(q, time, scan, b, places0, checks0, seen0, places, checks, seen)
    ensures Rechecked(q, time, scan, start, startChecks, places, checks, seen)
  {
    forall p | p in places
      ensures if (p, q) in seen
              then places[p].latestPresence == Some(seen[(p, q)])
                   && CheckIs(places[p].latestPresence, checks, q, PresenceTime(start[p], startChecks, scan, time, q))
              else SameEvidence(start[p], places[p])
    {
      if p == b && (p, q) !in seen0 {
        SameTime(places0[p], checks0, start[p], startChecks, scan, time, q);
      }
    }
  }

  lemma SameTime(a: Place, checks: seq<CheckRow>, b: Place, checks0: seq<CheckRow>, scan: Scan, time: int, q: int)
    requires SameEvidence(a, b) && checks0 <= checks && (b.latestPresence.Some? ==> b.latestPresence.value < |checks0|)
    ensures PresenceTime(a, checks, scan, time, q) == PresenceTime(b, checks0, scan, time, q)
    ensures ShowsLater(a.latestPresence, checks, q, time) == ShowsLater(b.latestPresence, checks0, q, time)
  {
  }

  lemma NothingRechecked(q: int, time: int, scan: Scan, places: map<nat, Place>, checks: seq<CheckRow>, seen: map<(nat, int), nat>)
    requires CheckRefs(places, checks) && forall k :: k in seen ==> k.1 != q
    ensures Rechecked(q, time, scan, places, checks, places, checks, seen)
  {
  }

  /** The place a phase checks for one of its targets. */
  function BindingOf(phase: Phase, id: nat, copies: map<nat, Copy>): nat
    requires !OverPaths(phase) ==> id in copies
  {
    if OverPaths(phase) then id else copies[id].owner
  }

  /** A checked copy shows what the cache remembers of its owner. */
  predicate RowShows(phase: Phase, id: nat, copies: map<nat, Copy>, seen: map<(nat, int), nat>) {
    id in copies && (copies[id].owner, PresenceOf(phase)) in seen
    && copies[id].latestPresence == Some(seen[(copies[id].owner, PresenceOf(phase))])
  }

  predicate Touches(phase: Phase, done: seq<nat>, copies: map<nat, Copy>, p: nat) {
    if OverPaths(phase) then p in done else exists c :: c in copies && c in done && copies[c].owner == p
  }

  /** The cache after a phase: what was there, and the places the phase touched. */
  ghost predicate SeenBy(phase: Phase, done: seq<nat>, copies0: map<nat, Copy>, copies: map<nat, Copy>,
                         seen0: map<(nat, int), nat>, seen: map<(nat, int), nat>)
  {
    && (forall k :: k in seen0 ==> k in seen && seen[k] == seen0[k])
    && (forall k :: k in seen ==> k in seen0 || (k.1 == PresenceOf(phase) && Touches(phase, done, copies0, k.0)))
    && (forall p: nat :: Touches(phase, done, copies0, p) ==> (p, PresenceOf(phase)) in seen)
    && (!OverPaths(phase) ==> forall c :: c in copies && c in done ==> RowShows(phase, c, copies, seen))
  }

  lemma NothingSeen(phase: Phase, copies: map<nat, Copy>, seen: map<(nat, int), nat>)
    ensures SeenBy(phase, [], copies, copies, seen, seen)
  {
  }

  /** What a phase never changes of a copy. */
  ghost predicate SameOwners(copies0: map<nat, Copy>, copies: map<nat, Copy>) {
    copies.Keys == copies0.Keys && forall c :: c in copies ==> copies[c].owner == copies0[c].owner
  }

  lemma PhaseOwners(phase: Phase, scan: Scan, done: seq<nat>, places0: map<nat, Place>, copies0: map<nat, Copy>,
                    places: map<nat, Place>, copies: map<nat, Copy>, checks: seq<CheckRow>)
    requires PhaseDone(phase, scan, done, places0, copies0, places, copies, checks)
    ensures SameOwners(copies0, copies) && forall c :: c in copies && c !in done ==> copies[c] == copies0[c]
  {
  }

  lemma TouchesNext(phase: Phase, done: seq<nat>, id: nat, copies: map<nat, Copy>, p: nat)
    requires OverPaths(phase) || id in copies
    ensures Touches(phase, done + [id], copies, p) <==> Touches(phase, done, copies, p) || p == BindingOf(phase, id, copies)
  {
    forall x ensures x in done + [id] <==> x in done || x == id {}
    if !OverPaths(phase) {
      assert id in done + [id];
      if c :| c in copies && c in done && copies[c].owner == p { assert c in done + [id]; }
    }
  }

  lemma SeenNext(phase: Phase, done: seq<nat>, id: nat, copies0: map<nat, Copy>, copies1: map<nat, Copy>, copies: map<nat, Copy>,
                 seen0: map<(nat, int), nat>, seen1: map<(nat, int), nat>, seen: map<(nat, int), nat>)
    requires SeenBy(phase, done, copies0, copies1, seen0, seen1) && id !in done && (OverPaths(phase) || id in copies1)
    requires SameOwners(copies0, copies1) && SameOwners(copies1, copies)
    requires forall c :: c in copies && c != id ==> copies[c] == copies1[c]
    requires var k := (BindingOf(phase, id, copies1), PresenceOf(phase));
             k in seen && seen == seen1[k := seen[k]] && (k in seen1 ==> seen == seen1)
    requires !OverPaths(phase) ==> RowShows(phase, id, copies, seen)
    ensures SeenBy(phase, done + [id], copies0, copies, seen0, seen)
  {
    hide Touches;
    var b, q := BindingOf(phase, id, copies1), PresenceOf(phase);
    assert BindingOf(phase, id, copies0) == b;
    forall p: nat ensures Touches(phase, done + [id], copies0, p) <==> Touches(phase, done, copies0, p) || p == b {
      TouchesNext(phase, done, id, copies0, p);
    }
    forall k | k in seen ensures k in seen0 || (k.1 == q && Touches(phase, done + [id], copies0, k.0)) {
      TouchesNext(phase, done, id, copies0, k.0);
    }
    if !OverPaths(phase) {
      forall c | c in copies && c in done + [id]
        ensures RowShows(phase, c, copies, seen)
      {
        if c != id { assert c in done; }
      }
    }
  }

  /** A check reused from this batch, or one appended. */
  lemma CheckedDirectly(q: int, time: int, scan: Scan, b: nat, places: map<nat, Place>, checks: seq<CheckRow>, seen: map<(nat, int), nat>)
    requires b in places && (b, q) !in seen && DirectRow(places[b], checks, scan, q)
    ensures CheckedOnce(q, time, scan, b, places, checks, seen, places, checks, seen[(b, q) := places[b].latestPresence.value])
    ensures OnlyChecked(places, places, b) && NotOlder(places[b].latestPresence, places[b].latestPresence, checks)
  {
  }

  lemma CheckedKey(q: int, time: int, scan: Scan, b: nat, places0: map<nat, Place>, checks0: seq<CheckRow>, seen0: map<(nat, int), nat>,
                   places: map<nat, Place>, checks: seq<CheckRow>, seen: map<(nat, int), nat>)
    requires CheckedOnce(q, time, scan, b, places0, checks0, seen0, places, checks, seen)
    ensures (b, q) in seen && seen == seen0[(b, q) := seen[(b, q)]] && ((b, q) in seen0 ==> seen == seen0)
  {
  }

  lemma RevivedEarlier(scan: Scan, done: seq<nat>, id: nat, c: nat, places0: map<nat, Place>, copies0: map<nat, Copy>,
                       places1: map<nat, Place>, copies1: map<nat, Copy>, checks1: seq<CheckRow>)
    requires PhaseDone(MissingCopies, scan, done, places0, copies0, places1, copies1, checks1)
    requires id !in done && c in done && c in copies0 && Revivable(id, copies1)
    ensures id in copies0 && (Active(copies0[id]) || !SameKey(copies0[c], copies0[id]))
  {
    assert copies1[c].state == "missing" && copies1[id] == copies0[id];
    assert SameKey(copies1[c], copies1[id]) == SameKey(copies0[c], copies0[id]);
  }

  lemma RevivedNext(scan: Scan, done: seq<nat>, id: nat, places0: map<nat, Place>, copies0: map<nat, Copy>,
                    places1: map<nat, Place>, copies1: map<nat, Copy>, checks1: seq<CheckRow>)
    requires PhaseDone(MissingCopies, scan, done, places0, copies0, places1, copies1, checks1)
    requires id !in done && RevivedApart(copies0, done) && Revivable(id, copies1)
    ensures RevivedApart(copies0, done + [id])
  {
    forall c, o | c in done + [id] && c in copies0 && o in copies0 && c != o && !Active(copies0[c]) && SameKey(copies0[c], copies0[o])
      ensures !Active(copies0[o]) && o !in done + [id]
    {
      if c == id {
        assert copies1[id] == copies0[id];
        assert SameKey(copies1[o], copies1[id]);
        assert o in done || copies1[o] == copies0[o];
      } else {
        assert c in done;
        RevivedEarlier(scan, done, id, c, places0, copies0, places1, copies1, checks1);
      }
    }
  }

  lemma StillRefused(phase: Phase, scan: Scan, done: seq<nat>, id: nat, places0: map<nat, Place>, copies0: map<nat, Copy>,
                     places1: map<nat, Place>, copies1: map<nat, Copy>, checks1: seq<CheckRow>)
    requires PhaseDone(phase, scan, done, places0, copies0, places1, copies1, checks1) && phase.MissingCopies?
    requires id !in done && id in copies1 && copies1[id].canonicalId in scan.missingCopies && !Revivable(id, copies1)
    requires forall c :: c in done ==> c in copies1 && copies1[c].canonicalId in scan.missingCopies
    ensures ReviveRefused(copies0, scan)
  {
    var o :| o in copies1 && o != id && Active(copies1[o]) && SameKey(copies1[o], copies1[id]);
    assert copies1[id] == copies0[id];
    assert o in done || copies1[o] == copies0[o];
    assert Clashes(copies0, scan, id, o);
  }

  lemma NeverRefused(copies: map<nat, Copy>, scan: Scan, done: seq<nat>)
    requires RevivedApart(copies, done) && forall c: nat :: c in done <==> c in copies && copies[c].canonicalId in scan.missingCopies
    ensures !ReviveRefused(copies, scan)
  {
  }

  lemma CheckedRow(q: int, time: int, scan: Scan, b: nat, places0: map<nat, Place>, checks0: seq<CheckRow>, seen0: map<(nat, int), nat>,
                   places: map<nat, Place>, checks: seq<CheckRow>, seen: map<(nat, int), nat>, row: Place)
    requires CheckedOnce(q, time, scan, b, places0, checks0, seen0, places, checks, seen) && row.latestPresence == Some(seen[(b, q)])
    ensures CheckedOnce(q, time, scan, b, places0, checks0, seen0, places[b := row], checks, seen)
  {
  }

  lemma DirectShows(p: Place, checks: seq<CheckRow>, scan: Scan, presence: int)
    requires DirectRow(p, checks, scan, presence)
    ensures Shows(p.latestPresence, checks, presence)
  {
  }

  lemma AlreadyChecked(q: int, time: int, scan: Scan, b: nat, places: map<nat, Place>, checks: seq<CheckRow>, seen: map<(nat, int), nat>)
    requires b in places && (b, q) in seen
    ensures CheckedOnce(q, time, scan, b, places, checks, seen, places, checks, seen) && seen == seen[(b, q) := seen[(b, q)]]
    ensures OnlyChecked(places, places, b) && NotOlder(places[b].latestPresence, places[b].latestPresence, checks)
  {
  }

  lemma CheckedAnew(q: int, time: int, scan: Scan, b: nat, places0: map<nat, Place>, checks0: seq<CheckRow>, seen: map<(nat, int), nat>,
                    places: map<nat, Place>, id: nat)
    requires b in places0 && (b, q) !in seen && !DirectRow(places0[b], checks0, scan, q) && CheckRefs(places0, checks0)
    requires id == if ShowsLater(places0[b].latestPresence, checks0, q, time) then places0[b].latestPresence.value else |checks0|
    requires places == places0[b := places0[b].(latestPresence := Some(id))]
    ensures var checks := checks0 + [CheckRow(b, time, q, 0, None)];
            && CheckedOnce(q, time, scan, b, places0, checks0, seen, places, checks, seen[(b, q) := id])
            && NotOlder(places0[b].latestPresence, Some(id), checks) && CheckRefs(places, checks)
            && OnlyChecked(places0, places, b) && id < |checks| && checks[id].presence == q
  {
  }

  /** `places1` differs from `places0` at most in the latest presence of `binding`. */
  ghost predicate OnlyChecked(places0: map<nat, Place>, places1: map<nat, Place>, binding: nat) {
    && places1.Keys == places0.Keys && binding in places0
    && (forall p :: p in places1 && p != binding ==> places1[p] == places0[p])
    && places1[binding] == places0[binding].(latestPresence := places1[binding].latestPresence)
  }

  lemma PathStepped(phase: Phase, scan: Scan, id: nat, places0: map<nat, Place>, places1: map<nat, Place>, row: Place,
                    copies: map<nat, Copy>, checks: seq<CheckRow>)
    requires OnlyChecked(places0, places1, id) && CheckRefs(places1, checks) && OverPaths(phase)
    requires PlaceDone(phase, scan, places1[id], row) && Shows(row.latestPresence, checks, PresenceOf(phase))
    ensures PhaseDone(phase, scan, [id], places0, copies, places1[id := row], copies, checks)
    ensures CheckRefs(places1[id := row], checks)
  {
  }

  lemma CopyStepped(phase: Phase, scan: Scan, id: nat, places0: map<nat, Place>, places: map<nat, Place>, owner: nat,
                    copies: map<nat, Copy>, row: Copy, checks: seq<CheckRow>)
    requires OnlyChecked(places0, places, owner) && id in copies && !OverPaths(phase)
    requires CopyDone(phase, scan, copies[id], row) && Shows(row.latestPresence, checks, PresenceOf(phase))
    ensures PhaseDone(phase, scan, [id], places0, copies, places, copies[id := row], checks)
    ensures row.latestIntegrity == copies[id].latestIntegrity && copies[id := row].Keys == copies.Keys
  {
  }

  lemma NothingDone(phase: Phase, scan: Scan, places: map<nat, Place>, copies: map<nat, Copy>, checks: seq<CheckRow>)
    ensures PhaseDone(phase, scan, [], places, copies, places, copies, checks)
  {
  }

  lemma RowsNext(phase: Phase, scan: Scan, done: seq<nat>, id: nat, places0: map<nat, Place>, copies0: map<nat, Copy>,
                 places1: map<nat, Place>, copies1: map<nat, Copy>, checks1: seq<CheckRow>,
                 places: map<nat, Place>, copies: map<nat, Copy>, checks: seq<CheckRow>, x: nat)
    requires PhaseDone(phase, scan, done, places0, copies0, places1, copies1, checks1) && id !in done
    requires PhaseDone(phase, scan, [id], places1, copies1, places, copies, checks) && checks1 <= checks
    ensures x in places ==>
              if !OverPaths(phase) then places[x] == places0[x].(latestPresence := places[x].latestPresence)
              else if x in done + [id] then PlaceDone(phase, scan, places0[x], places[x]) && Shows(places[x].latestPresence, checks, PresenceOf(phase))
              else places[x] == places0[x]
    ensures x in copies ==>
              if !OverPaths(phase) && x in done + [id] then
                CopyDone(phase, scan, copies0[x], copies[x]) && Shows(copies[x].latestPresence, checks, PresenceOf(phase))
              else copies[x] == copies0[x]
  {
    assert x in done + [id] <==> x in done || x == id;
  }

  /** One more target. */
  lemma PhaseNext(phase: Phase, scan: Scan, done: seq<nat>, id: nat, places0: map<nat, Place>, copies0: map<nat, Copy>,
                  places1: map<nat, Place>, copies1: map<nat, Copy>, checks1: seq<CheckRow>,
                  places: map<nat, Place>, copies: map<nat, Copy>, checks: seq<CheckRow>)
    requires PhaseDone(phase, scan, done, places0, copies0, places1, copies1, checks1) && id !in done
    requires PhaseDone(phase, scan, [id], places1, copies1, places, copies, checks) && checks1 <= checks
    ensures PhaseDone(phase, scan, done + [id], places0, copies0, places, copies, checks)
  {
    hide PlaceDone, CopyDone, Shows, OverPaths;
    forall x: nat | x in places || x in copies {
      RowsNext(phase, scan, done, id, places0, copies0, places1, copies1, checks1, places, copies, checks, x);
    }
  }

  // ----- the outcome of a whole finalization -----

  /** A present path of an active file of the collection at the location. */
  predicate BelongsTo(files: map<nat, FileObject>, scan: Scan, p: Place) {
    p.locationId == scan.locationId && p.presence && p.fileId in files
    && files[p.fileId].collectionId == scan.collectionId && files[p.fileId].active
  }

  /** A path is present unless reported missing; it is stamped with the scan if either reported missing or
      present in the collection; and a refreshing scan moves the time it was seen forward, never back. */
  predicate PlaceFinal(files: map<nat, FileObject>, scan: Scan, refresh: bool, id: nat, before: Place, after: Place) {
    var missed := id in scan.missingPaths;
    var stamp := if missed || BelongsTo(files, scan, before) then Some(scan.scanId) else before.completeScan;
    after == before.(presence := before.presence && !missed,
                     completeScan := stamp,
                     lastRecord := if missed then scan.record else before.lastRecord,
                     seenTime := if refresh && before.presence && !missed && stamp == Some(scan.scanId)
                                 then Later(before.seenTime, scan.startTime) else before.seenTime,
                     latestPresence := after.latestPresence)
  }

  /** What the scan makes of presence and stamp: known before it is finalized. */
  function Expected(files: map<nat, FileObject>, scan: Scan, places: map<nat, Place>): map<nat, Place> {
    map p | p in places ::
      places[p].(presence := places[p].presence && p !in scan.missingPaths,
                 completeScan := if p in scan.missingPaths || BelongsTo(files, scan, places[p]) then Some(scan.scanId)
                                 else places[p].completeScan)
  }

  /** A copy is missing if reported so; it is stamped if missing or covered; and its latest check shows
      it missing, or present when a refreshing scan found its path or content present. */
  ghost predicate CopyFinal(files: map<nat, FileObject>, places: map<nat, Place>, scan: Scan, refresh: bool,
                            before: Copy, after: Copy, checks: seq<CheckRow>)
  {
    var gone := before.canonicalId in scan.missingCopies;
    && after == before.(state := if gone then "missing" else before.state,
                        stateRecord := if gone then scan.record else before.stateRecord,
                        completeScan := if gone || (IsTarget(before, scan) && CoveredDirectly(files, places, before, scan))
                                        then Some(scan.scanId) else before.completeScan,
                        latestPresence := after.latestPresence)
    && (if gone then Shows(after.latestPresence, checks, 0)
        else if refresh && IsTarget(before, scan) && PresentDirectly(files, places, before, scan)
        then Shows(after.latestPresence, checks, 1)
        else after.latestPresence == before.latestPresence)
  }

  /** Between two tables agreeing on these columns, coverage and presence are the same. */
  ghost predicate SameColumns(a: map<nat, Place>, b: map<nat, Place>) {
    && a.Keys == b.Keys
    && forall p :: p in a ==>
         && a[p].fileId == b[p].fileId && a[p].locationId == b[p].locationId && a[p].representation == b[p].representation
         && a[p].presence == b[p].presence && a[p].completeScan == b[p].completeScan && a[p].externalId == b[p].externalId
  }

  ghost predicate StampedPlaces(files: map<nat, FileObject>, scan: Scan, places0: map<nat, Place>, places: map<nat, Place>) {
    && places.Keys == places0.Keys
    && forall p :: p in places ==>
         places[p] == if BelongsTo(files, scan, places0[p]) then places0[p].(completeScan := Some(scan.scanId)) else places0[p]
  }

  ghost predicate StampedCopies(targets: map<nat, CopyTarget>, scan: Scan, copies0: map<nat, Copy>, copies: map<nat, Copy>) {
    && copies.Keys == copies0.Keys
    && forall c :: c in copies ==>
         copies[c] == if c in targets && targets[c].covered then copies0[c].(completeScan := Some(scan.scanId)) else copies0[c]
  }

  lemma SameLookups(files: map<nat, FileObject>, a: map<nat, Place>, b: map<nat, Place>, c: Copy, c': Copy, scan: Scan)
    requires SameColumns(a, b) && c'.owner == c.owner && c'.locator == c.locator && c'.externalId == c.externalId
    ensures CoveredDirectly(files, a, c, scan) == CoveredDirectly(files, b, c', scan)
    ensures PresentDirectly(files, a, c, scan) == PresentDirectly(files, b, c', scan)
  {
  }

  lemma PathsOnly(phase: Phase, scan: Scan, done: seq<nat>, places0: map<nat, Place>, copies0: map<nat, Copy>,
                  places: map<nat, Place>, copies: map<nat, Copy>, checks: seq<CheckRow>)
    requires PhaseDone(phase, scan, done, places0, copies0, places, copies, checks) && OverPaths(phase)
    ensures copies == copies0 && places.Keys == places0.Keys
  {
  }

  lemma CopiesOnly(phase: Phase, scan: Scan, done: seq<nat>, places0: map<nat, Place>, copies0: map<nat, Copy>,
                   places: map<nat, Place>, copies: map<nat, Copy>, checks: seq<CheckRow>)
    requires PhaseDone(phase, scan, done, places0, copies0, places, copies, checks) && !OverPaths(phase)
    ensures copies.Keys == copies0.Keys && places.Keys == places0.Keys
    ensures SameColumns(places0, places)
  {
  }

  lemma FinalColumns(files: map<nat, FileObject>, scan: Scan, refresh: bool, places0: map<nat, Place>, places: map<nat, Place>)
    requires places.Keys == places0.Keys
    requires forall p :: p in places ==> PlaceFinal(files, scan, refresh, p, places0[p], places[p])
    ensures SameColumns(Expected(files, scan, places0), places)
  {
  }

  lemma ColumnsChain(a: map<nat, Place>, b: map<nat, Place>, c: map<nat, Place>)
    requires SameColumns(a, c) && SameColumns(b, c)
    ensures SameColumns(a, b)
  {
  }

  lemma StampedKeys(files: map<nat, FileObject>, targets: map<nat, CopyTarget>, scan: Scan,
                    places0: map<nat, Place>, places: map<nat, Place>, copies0: map<nat, Copy>, copies: map<nat, Copy>)
    requires StampedPlaces(files, scan, places0, places) && StampedCopies(targets, scan, copies0, copies)
    ensures places.Keys == places0.Keys && copies.Keys == copies0.Keys
  {
  }

  lemma PlaceRow(phase: Phase, scan: Scan, done: seq<nat>, places0: map<nat, Place>, copies0: map<nat, Copy>,
                 places: map<nat, Place>, copies: map<nat, Copy>, checks: seq<CheckRow>, p: nat)
    requires PhaseDone(phase, scan, done, places0, copies0, places, copies, checks) && p in places
    ensures p in places0
    ensures if !OverPaths(phase) then places[p] == places0[p].(latestPresence := places[p].latestPresence)
            else if p in done then PlaceDone(phase, scan, places0[p], places[p]) else places[p] == places0[p]
  {
  }

  lemma CopyRow(phase: Phase, scan: Scan, done: seq<nat>, places0: map<nat, Place>, copies0: map<nat, Copy>,
                places: map<nat, Place>, copies: map<nat, Copy>, checks: seq<CheckRow>, c: nat)
    requires PhaseDone(phase, scan, done, places0, copies0, places, copies, checks) && c in copies && !OverPaths(phase)
    ensures c in copies0
    ensures if c in done then CopyDone(phase, scan, copies0[c], copies[c]) && Shows(copies[c].latestPresence, checks, PresenceOf(phase))
            else copies[c] == copies0[c]
  {
  }

  lemma StampedPlace(files: map<nat, FileObject>, scan: Scan, places0: map<nat, Place>, places: map<nat, Place>, p: nat)
    requires StampedPlaces(files, scan, places0, places) && p in places
    ensures p in places0
    ensures places[p] == if BelongsTo(files, scan, places0[p]) then places0[p].(completeScan := Some(scan.scanId)) else places0[p]
  {
  }

  lemma StampedCopy(targets: map<nat, CopyTarget>, scan: Scan, copies0: map<nat, Copy>, copies: map<nat, Copy>, c: nat)
    requires StampedCopies(targets, scan, copies0, copies) && c in copies
    ensures c in copies0
    ensures copies[c] == if c in targets && targets[c].covered then copies0[c].(completeScan := Some(scan.scanId)) else copies0[c]
  {
  }

  /** The last two phases, which only a refreshing scan runs. */
  ghost predicate Refreshed(scan: Scan, refresh: bool, targets: map<nat, CopyTarget>, p3: map<nat, Place>, c4: map<nat, Copy>,
                            p5: map<nat, Place>, k5: seq<CheckRow>, p6: map<nat, Place>, c6: map<nat, Copy>, k6: seq<CheckRow>,
                            seenIds: seq<nat>, freshIds: seq<nat>)
  {
    if !refresh then p5 == p3 && p6 == p3 && c6 == c4 && seenIds == [] && freshIds == []
    else
      && PhaseDone(SeenPaths, scan, seenIds, p3, c4, p5, c4, k5)
      && PhaseDone(SeenCopies, scan, freshIds, p5, c4, p6, c6, k6)
      && (forall x: nat :: x in seenIds <==> x in p3 && p3[x].completeScan == Some(scan.scanId) && p3[x].presence)
      && (forall x: nat :: x in freshIds <==> x in targets && targets[x].present && x in c4)
  }

  lemma RefreshKeys(scan: Scan, refresh: bool, targets: map<nat, CopyTarget>, p3: map<nat, Place>, c4: map<nat, Copy>,
                    p5: map<nat, Place>, k5: seq<CheckRow>, p6: map<nat, Place>, c6: map<nat, Copy>, k6: seq<CheckRow>,
                    seenIds: seq<nat>, freshIds: seq<nat>)
    requires Refreshed(scan, refresh, targets, p3, c4, p5, k5, p6, c6, k6, seenIds, freshIds)
    ensures p6.Keys == p5.Keys == p3.Keys && c6.Keys == c4.Keys && SameColumns(p3, p6)
  {
  }

  lemma RefreshedPlace(scan: Scan, refresh: bool, targets: map<nat, CopyTarget>, p3: map<nat, Place>, c4: map<nat, Copy>,
                       p5: map<nat, Place>, k5: seq<CheckRow>, p6: map<nat, Place>, c6: map<nat, Copy>, k6: seq<CheckRow>,
                       seenIds: seq<nat>, freshIds: seq<nat>, p: nat)
    requires Refreshed(scan, refresh, targets, p3, c4, p5, k5, p6, c6, k6, seenIds, freshIds) && p in p6
    ensures p in p5 && p in p3 && p6[p] == p5[p].(latestPresence := p6[p].latestPresence)
    ensures if refresh && p3[p].completeScan == Some(scan.scanId) && p3[p].presence then PlaceDone(SeenPaths, scan, p3[p], p5[p]) else p5[p] == p3[p]
  {
  }

  lemma RefreshedCopy(scan: Scan, refresh: bool, targets: map<nat, CopyTarget>, p3: map<nat, Place>, c4: map<nat, Copy>,
                      p5: map<nat, Place>, k5: seq<CheckRow>, p6: map<nat, Place>, c6: map<nat, Copy>, k6: seq<CheckRow>,
                      seenIds: seq<nat>, freshIds: seq<nat>, c: nat)
    requires Refreshed(scan, refresh, targets, p3, c4, p5, k5, p6, c6, k6, seenIds, freshIds) && c in c6
    ensures c in c4
    ensures if refresh && c in targets && targets[c].present then CopyDone(SeenCopies, scan, c4[c], c6[c]) && Shows(c6[c].latestPresence, k6, 1)
            else c6[c] == c4[c]
  {
  }

  lemma IntegrityKept(files: map<nat, FileObject>, places: map<nat, Place>, scan: Scan, refresh: bool,
                      copies0: map<nat, Copy>, checks0: seq<CheckRow>, copies: map<nat, Copy>, checks: seq<CheckRow>)
    requires copies.Keys == copies0.Keys && checks0 <= checks
    requires forall c :: c in copies ==> CopyFinal(files, places, scan, refresh, copies0[c], copies[c], checks)
    ensures HistoryKept(copies0, checks0, copies, checks)
  {
    hide CoveredDirectly, PresentDirectly;
  }

  /** The life of one path row through a finalization. */
  lemma PathRowEnds(files: map<nat, FileObject>, scan: Scan, refresh: bool, id: nat, b0: Place, b1: Place, b2: Place, b3: Place,
                    b5: Place, b6: Place)
    requires if id in scan.missingPaths then PlaceDone(MissingPaths, scan, b0, b1) else b1 == b0
    requires b2 == b1.(latestPresence := b2.latestPresence)
    requires b3 == if BelongsTo(files, scan, b2) then b2.(completeScan := Some(scan.scanId)) else b2
    requires if refresh && b3.completeScan == Some(scan.scanId) && b3.presence then PlaceDone(SeenPaths, scan, b3, b5) else b5 == b3
    requires b6 == b5.(latestPresence := b6.latestPresence)
    ensures PlaceFinal(files, scan, refresh, id, b0, b6)
  {
  }

  /** The life of one copy row through a finalization. */
  lemma CopyRowEnds(files: map<nat, FileObject>, places3: map<nat, Place>, places6: map<nat, Place>, scan: Scan, refresh: bool,
                    r0: Copy, r2: Copy, r4: Copy, r6: Copy, covered: bool, present: bool, k2: seq<CheckRow>, k6: seq<CheckRow>)
    requires if r0.canonicalId in scan.missingCopies then CopyDone(MissingCopies, scan, r0, r2) && Shows(r2.latestPresence, k2, 0) else r2 == r0
    requires covered <==> CoveredDirectly(files, places3, r2, scan)
    requires present <==> PresentDirectly(files, places3, r2, scan)
    requires r4 == if IsTarget(r2, scan) && covered then r2.(completeScan := Some(scan.scanId)) else r2
    requires if refresh && IsTarget(r2, scan) && present then CopyDone(SeenCopies, scan, r4, r6) && Shows(r6.latestPresence, k6, 1) else r6 == r4
    requires k2 <= k6 && SameColumns(places3, places6)
    ensures CopyFinal(files, places6, scan, refresh, r0, r6, k6)
  {
    hide CoveredDirectly, PresentDirectly, SameColumns;
    SameLookups(files, places3, places6, r2, r0, scan);
  }

  /** The tables, the history and the cache after the phases every scan runs, and what each visited. */
  datatype Half = Half(
    p1: map<nat, Place>, p2: map<nat, Place>, p3: map<nat, Place>, c2: map<nat, Copy>, c4: map<nat, Copy>,
    k1: seq<CheckRow>, k2: seq<CheckRow>, s1: map<(nat, int), nat>, s2: map<(nat, int), nat>, missing: seq<nat>, gone: seq<nat>)

  /** What those phases promise. */
  ghost predicate HalfTrail(files: map<nat, FileObject>, scan: Scan, targets: map<nat, CopyTarget>,
                            p0: map<nat, Place>, c0: map<nat, Copy>, k0: seq<CheckRow>, h: Half)
  {
    && PhaseDone(MissingPaths, scan, h.missing, p0, c0, h.p1, c0, h.k1)
    && (forall x: nat :: x in h.missing <==> x in p0 && x in scan.missingPaths)
    && PhaseDone(MissingCopies, scan, h.gone, h.p1, c0, h.p2, h.c2, h.k2)
    && (forall x: nat :: x in h.gone <==> x in c0 && c0[x].canonicalId in scan.missingCopies)
    && StampedPlaces(files, scan, h.p2, h.p3) && StampedCopies(targets, scan, h.c2, h.c4)
    && targets.Keys == (set c | c in h.c2 && IsTarget(h.c2[c], scan))
    && (forall c :: c in targets ==>
          && (targets[c].covered <==> CoveredDirectly(files, h.p3, h.c2[c], scan))
          && (targets[c].present <==> PresentDirectly(files, h.p3, h.c2[c], scan)))
    && Rechecked(0, scan.finishedTime, scan, p0, k0, h.p2, h.k2, h.s2)
    && SeenBy(MissingPaths, h.missing, c0, c0, map[], h.s1) && SeenBy(MissingCopies, h.gone, c0, h.c2, h.s1, h.s2)
  }

  /** A whole finalization: where it began, the first phases, and the refreshing ones. */
  datatype Trail = Trail(
    p0: map<nat, Place>, c0: map<nat, Copy>, k0: seq<CheckRow>, h: Half, p5: map<nat, Place>, k5: seq<CheckRow>, s5: map<(nat, int), nat>,
    p6: map<nat, Place>, c6: map<nat, Copy>, k6: seq<CheckRow>, s6: map<(nat, int), nat>, seenIds: seq<nat>, freshIds: seq<nat>)

  ghost predicate IsTrail(files: map<nat, FileObject>, scan: Scan, refresh: bool, targets: map<nat, CopyTarget>, t: Trail) {
    && HalfTrail(files, scan, targets, t.p0, t.c0, t.k0, t.h)
    && Refreshed(scan, refresh, targets, t.h.p3, t.h.c4, t.p5, t.k5, t.p6, t.c6, t.k6, t.seenIds, t.freshIds)
    && t.k0 <= t.h.k2 <= t.k6
    && Rechecked(1, scan.startTime, scan, t.h.p3, t.h.k2, t.p6, t.k6, t.s6)
    && SeenBy(SeenPaths, t.seenIds, t.h.c4, t.h.c4, t.h.s2, t.s5) && SeenBy(SeenCopies, t.freshIds, t.h.c4, t.c6, t.s5, t.s6)
  }

  lemma PlaceRowsEnd(files: map<nat, FileObject>, scan: Scan, refresh: bool, targets: map<nat, CopyTarget>, t: Trail)
    requires IsTrail(files, scan, refresh, targets, t)
    ensures t.p6.Keys == t.p0.Keys
    ensures forall p :: p in t.p6 ==> PlaceFinal(files, scan, refresh, p, t.p0[p], t.p6[p])
    ensures SameColumns(t.h.p3, Expected(files, scan, t.p0)) && SameColumns(Expected(files, scan, t.p0), t.p6)
  {
    hide CoveredDirectly, PresentDirectly, PhaseDone, PlaceFinal, StampedPlaces, StampedCopies, IsTarget, PlaceDone, Shows, BelongsTo,
         SameColumns, Refreshed, Expected;
    TrailKeys(files, scan, refresh, targets, t);
    forall p | p in t.p6 ensures PlaceFinal(files, scan, refresh, p, t.p0[p], t.p6[p]) {
      PlaceRow(MissingPaths, scan, t.h.missing, t.p0, t.c0, t.h.p1, t.c0, t.h.k1, p);
      PlaceRow(MissingCopies, scan, t.h.gone, t.h.p1, t.c0, t.h.p2, t.h.c2, t.h.k2, p);
      StampedPlace(files, scan, t.h.p2, t.h.p3, p);
      RefreshedPlace(scan, refresh, targets, t.h.p3, t.h.c4, t.p5, t.k5, t.p6, t.c6, t.k6, t.seenIds, t.freshIds, p);
      PathRowEnds(files, scan, refresh, p, t.p0[p], t.h.p1[p], t.h.p2[p], t.h.p3[p], t.p5[p], t.p6[p]);
    }
    FinalColumns(files, scan, refresh, t.p0, t.p6);
    ColumnsChain(t.h.p3, Expected(files, scan, t.p0), t.p6);
  }

  /** Every row's life, from the phases' own results. */
  lemma RowsEnd(files: map<nat, FileObject>, scan: Scan, refresh: bool, targets: map<nat, CopyTarget>, t: Trail)
    requires IsTrail(files, scan, refresh, targets, t)
    ensures t.p6.Keys == t.p0.Keys && t.c6.Keys == t.c0.Keys && HistoryKept(t.c0, t.k0, t.c6, t.k6)
    ensures forall p :: p in t.p6 ==> PlaceFinal(files, scan, refresh, p, t.p0[p], t.p6[p])
    ensures forall c :: c in t.c6 ==> CopyFinal(files, Expected(files, scan, t.p0), scan, refresh, t.c0[c], t.c6[c], t.k6)
  {
    hide HistoryKept, CoveredDirectly, PresentDirectly, PhaseDone, PlaceFinal, CopyFinal, StampedPlaces, StampedCopies,
         IsTarget, CopyDone, Shows, SameColumns, Refreshed, Expected;
    TrailKeys(files, scan, refresh, targets, t);
    PlaceRowsEnd(files, scan, refresh, targets, t);
    var expected := Expected(files, scan, t.p0);
    forall c | c in t.c6 ensures CopyFinal(files, expected, scan, refresh, t.c0[c], t.c6[c], t.k6) {
      CopyTrail(files, scan, refresh, targets, t, c);
      CopyRowEnds(files, t.h.p3, expected, scan, refresh, t.c0[c], t.h.c2[c], t.h.c4[c], t.c6[c],
                  if c in targets then targets[c].covered else CoveredDirectly(files, t.h.p3, t.h.c2[c], scan),
                  if c in targets then targets[c].present else PresentDirectly(files, t.h.p3, t.h.c2[c], scan), t.h.k2, t.k6);
    }
    IntegrityKept(files, expected, scan, refresh, t.c0, t.k0, t.c6, t.k6);
  }

  lemma TrailKeys(files: map<nat, FileObject>, scan: Scan, refresh: bool, targets: map<nat, CopyTarget>, t: Trail)
    requires IsTrail(files, scan, refresh, targets, t)
    ensures t.p0.Keys == t.h.p1.Keys == t.h.p2.Keys == t.h.p3.Keys == t.p5.Keys == t.p6.Keys
    ensures t.c0.Keys == t.h.c2.Keys == t.h.c4.Keys == t.c6.Keys && SameColumns(t.h.p3, t.p6)
  {
    hide CoveredDirectly, PresentDirectly, PhaseDone, StampedPlaces, StampedCopies, IsTarget, SameColumns, Refreshed;
    PathsOnly(MissingPaths, scan, t.h.missing, t.p0, t.c0, t.h.p1, t.c0, t.h.k1);
    CopiesOnly(MissingCopies, scan, t.h.gone, t.h.p1, t.c0, t.h.p2, t.h.c2, t.h.k2);
    StampedKeys(files, targets, scan, t.h.p2, t.h.p3, t.h.c2, t.h.c4);
    RefreshKeys(scan, refresh, targets, t.h.p3, t.h.c4, t.p5, t.k5, t.p6, t.c6, t.k6, t.seenIds, t.freshIds);
  }

  lemma CopyTrail(files: map<nat, FileObject>, scan: Scan, refresh: bool, targets: map<nat, CopyTarget>, t: Trail, c: nat)
    requires IsTrail(files, scan, refresh, targets, t) && c in t.c6
    ensures c in t.c0 && c in t.h.c2 && c in t.h.c4 && (c in targets <==> IsTarget(t.h.c2[c], scan))
    ensures if t.c0[c].canonicalId in scan.missingCopies
            then CopyDone(MissingCopies, scan, t.c0[c], t.h.c2[c]) && Shows(t.h.c2[c].latestPresence, t.h.k2, 0) else t.h.c2[c] == t.c0[c]
    ensures t.h.c4[c] == if c in targets && targets[c].covered then t.h.c2[c].(completeScan := Some(scan.scanId)) else t.h.c2[c]
    ensures if refresh && c in targets && targets[c].present
            then CopyDone(SeenCopies, scan, t.h.c4[c], t.c6[c]) && Shows(t.c6[c].latestPresence, t.k6, 1) else t.c6[c] == t.h.c4[c]
  {
    hide CoveredDirectly, PresentDirectly, PhaseDone, StampedPlaces, StampedCopies, IsTarget, SameColumns, Refreshed, CopyDone, Shows;
    TrailKeys(files, scan, refresh, targets, t);
    CopyRow(MissingCopies, scan, t.h.gone, t.h.p1, t.c0, t.h.p2, t.h.c2, t.h.k2, c);
    StampedCopy(targets, scan, t.h.c2, t.h.c4, c);
    RefreshedCopy(scan, refresh, targets, t.h.p3, t.h.c4, t.p5, t.k5, t.p6, t.c6, t.k6, t.seenIds, t.freshIds, c);
  }

  // ----- the latest presence after a whole finalization -----

  /** The finalization records the place as missing, or as the owner of a missing copy. */
  ghost predicate Zeroed(scan: Scan, places: map<nat, Place>, copies: map<nat, Copy>, p: nat) {
    || (p in places && p in scan.missingPaths)
    || exists c :: c in copies && copies[c].owner == p && copies[c].canonicalId in scan.missingCopies
  }

  /** A refreshing scan records this copy as present. */
  ghost predicate FoundPresent(files: map<nat, FileObject>, places: map<nat, Place>, scan: Scan, c: Copy) {
    c.canonicalId !in scan.missingCopies && IsTarget(c, scan) && PresentDirectly(files, places, c, scan)
  }

  /** A refreshing scan records the place as present, or as the owner of a present copy; `places` are the expected rows. */
  ghost predicate Reseen(files: map<nat, FileObject>, places: map<nat, Place>, scan: Scan, copies0: map<nat, Copy>, p: nat) {
    || (p in places && places[p].presence && places[p].completeScan == Some(scan.scanId))
    || exists c :: c in copies0 && copies0[c].owner == p && FoundPresent(files, places, scan, copies0[c])
  }

  /** The place was known present later than the scan started, and is recorded both missing and present. */
  ghost predicate PlaceSetBack(files: map<nat, FileObject>, scan: Scan, refresh: bool,
                               places0: map<nat, Place>, copies0: map<nat, Copy>, checks0: seq<CheckRow>, p: nat)
    requires p in places0
  {
    refresh && ShowsLater(places0[p].latestPresence, checks0, 1, scan.startTime)
    && Zeroed(scan, places0, copies0, p) && Reseen(files, Expected(files, scan, places0), scan, copies0, p)
  }

  /** The copy's own latest check was later than the one its owner ends with. */
  ghost predicate CopySetBack(files: map<nat, FileObject>, scan: Scan, refresh: bool,
                              places0: map<nat, Place>, copies0: map<nat, Copy>, checks0: seq<CheckRow>, c: nat)
    requires c in copies0
  {
    var before := copies0[c];
    before.owner in places0 &&
    var owner := places0[before.owner];
    if before.canonicalId in scan.missingCopies
    then ShowsLater(before.latestPresence, checks0, 0, PresenceTime(owner, checks0, scan, scan.finishedTime, 0))
    else refresh && FoundPresent(files, Expected(files, scan, places0), scan, before)
         && ShowsLater(before.latestPresence, checks0, 1,
                       if Zeroed(scan, places0, copies0, before.owner) then scan.startTime
                       else PresenceTime(owner, checks0, scan, scan.startTime, 1))
  }

  /** A copy sharing its owner's latest check is set back only with its owner. */
  lemma SharedSetBack(files: map<nat, FileObject>, scan: Scan, refresh: bool,
                      places0: map<nat, Place>, copies0: map<nat, Copy>, checks0: seq<CheckRow>, c: nat)
    requires c in copies0 && copies0[c].owner in places0 && copies0[c].latestPresence == places0[copies0[c].owner].latestPresence
    ensures CopySetBack(files, scan, refresh, places0, copies0, checks0, c) ==>
              PlaceSetBack(files, scan, refresh, places0, copies0, checks0, copies0[c].owner)
  {
    hide PresentDirectly, IsTarget;
  }

  /** The latest presence of one place through a finalization. */
  lemma PlaceLatestEnds(scan: Scan, p: nat, b0: Place, b2: Place, b3: Place, b6: Place, k0: seq<CheckRow>, k2: seq<CheckRow>,
                        k6: seq<CheckRow>, zeroed: bool, reseen: bool)
    requires k0 <= k2 <= k6 && (b0.latestPresence.Some? ==> b0.latestPresence.value < |k0|)
    requires if zeroed then CheckIs(b2.latestPresence, k2, 0, PresenceTime(b0, k0, scan, scan.finishedTime, 0)) else SameEvidence(b0, b2)
    requires SameEvidence(b2, b3)
    requires if reseen then CheckIs(b6.latestPresence, k6, 1, PresenceTime(b3, k2, scan, scan.startTime, 1)) else SameEvidence(b3, b6)
    ensures NotOlder(b0.latestPresence, b6.latestPresence, k6) <==>
            !(zeroed && reseen && ShowsLater(b0.latestPresence, k0, 1, scan.startTime))
    ensures PresenceTime(b3, k2, scan, scan.startTime, 1) ==
            if zeroed then scan.startTime else PresenceTime(b0, k0, scan, scan.startTime, 1)
  {
    if !zeroed { SameTime(b3, k2, b0, k0, scan, scan.startTime, 1); }
  }

  /** The latest presence of one copy, against that of its owner. */
  lemma CopyLatestEnds(before: Option<nat>, after: Option<nat>, k0: seq<CheckRow>, k6: seq<CheckRow>, presence: int, time: int)
    requires k0 <= k6 && (before.Some? ==> before.value < |k0|) && CheckIs(after, k6, presence, time)
    ensures NotOlder(before, after, k6) <==> !ShowsLater(before, k0, presence, time)
  {
  }

  lemma RecheckedPlace(q: int, time: int, scan: Scan, places0: map<nat, Place>, checks0: seq<CheckRow>,
                       places: map<nat, Place>, checks: seq<CheckRow>, seen: map<(nat, int), nat>, p: nat)
    requires Rechecked(q, time, scan, places0, checks0, places, checks, seen) && p in places
    ensures checks0 <= checks && p in places0 && (places0[p].latestPresence.Some? ==> places0[p].latestPresence.value < |checks0|)
    ensures if (p, q) in seen
            then places[p].latestPresence == Some(seen[(p, q)])
                 && CheckIs(places[p].latestPresence, checks, q, PresenceTime(places0[p], checks0, scan, time, q))
            else SameEvidence(places0[p], places[p])
  {
  }

  lemma OnlyMissingSeen(missing: seq<nat>, gone: seq<nat>, c0: map<nat, Copy>, c2: map<nat, Copy>,
                        s1: map<(nat, int), nat>, s2: map<(nat, int), nat>)
    requires SeenBy(MissingPaths, missing, c0, c0, map[], s1) && SeenBy(MissingCopies, gone, c0, c2, s1, s2)
    ensures forall k :: k in s2 ==> k.1 == 0
    ensures forall p: nat :: (p, 0) in s2 <==> Touches(MissingPaths, missing, c0, p) || Touches(MissingCopies, gone, c0, p)
  {
  }

  lemma ZeroedIs(files: map<nat, FileObject>, scan: Scan, refresh: bool, targets: map<nat, CopyTarget>, t: Trail, p: nat)
    requires IsTrail(files, scan, refresh, targets, t)
    ensures (p, 0) in t.h.s2 <==> Zeroed(scan, t.p0, t.c0, p)
    ensures forall k :: k in t.h.s2 ==> k.1 == 0
  {
    hide PhaseDone, StampedPlaces, StampedCopies, Refreshed, Rechecked, SeenBy, CoveredDirectly, PresentDirectly, IsTarget;
    OnlyMissingSeen(t.h.missing, t.h.gone, t.c0, t.h.c2, t.h.s1, t.h.s2);
  }

  lemma FreshIs(files: map<nat, FileObject>, scan: Scan, refresh: bool, targets: map<nat, CopyTarget>, t: Trail, c: nat)
    requires IsTrail(files, scan, refresh, targets, t) && c in t.c6
    ensures c in t.c0 && c in t.h.c4 && t.h.c4[c].owner == t.c0[c].owner == t.c6[c].owner
    ensures c in t.freshIds <==> refresh && FoundPresent(files, Expected(files, scan, t.p0), scan, t.c0[c])
    ensures c in t.freshIds <==> refresh && c in targets && targets[c].present
  {
    hide PhaseDone, StampedPlaces, StampedCopies, SameColumns, CoveredDirectly, PresentDirectly, Rechecked, SeenBy, Shows;
    TrailKeys(files, scan, refresh, targets, t);
    CopyTrail(files, scan, refresh, targets, t, c);
    PlaceRowsEnd(files, scan, refresh, targets, t);
    SameLookups(files, t.h.p3, Expected(files, scan, t.p0), t.h.c2[c], t.c0[c], scan);
  }

  lemma ReseenIs(files: map<nat, FileObject>, scan: Scan, refresh: bool, targets: map<nat, CopyTarget>, t: Trail, p: nat)
    requires IsTrail(files, scan, refresh, targets, t)
    ensures (p, 1) in t.s6 <==> refresh && Reseen(files, Expected(files, scan, t.p0), scan, t.c0, p)
  {
    hide IsTrail, FoundPresent;
    TrailSeen(files, scan, refresh, targets, t, p);
    forall c | c in t.c6
      ensures c in t.h.c4 && t.h.c4[c].owner == t.c0[c].owner && (c in t.freshIds <==> refresh && FoundPresent(files, Expected(files, scan, t.p0), scan, t.c0[c]))
    {
      FreshIs(files, scan, refresh, targets, t, c);
    }
  }

  lemma TrailSeen(files: map<nat, FileObject>, scan: Scan, refresh: bool, targets: map<nat, CopyTarget>, t: Trail, p: nat)
    requires IsTrail(files, scan, refresh, targets, t)
    ensures t.c0.Keys == t.h.c4.Keys == t.c6.Keys
    ensures (p, 1) in t.s6 <==> p in t.seenIds || Touches(SeenCopies, t.freshIds, t.h.c4, p)
    ensures var expected := Expected(files, scan, t.p0);
            p in t.seenIds <==> refresh && p in expected && expected[p].presence && expected[p].completeScan == Some(scan.scanId)
    ensures forall c :: c in t.freshIds ==> refresh
  {
    hide PhaseDone, StampedPlaces, StampedCopies, Rechecked, CoveredDirectly, PresentDirectly, IsTarget, SeenBy, HalfTrail;
    TrailKeys(files, scan, refresh, targets, t);
    PlaceRowsEnd(files, scan, refresh, targets, t);
    ZeroedIs(files, scan, refresh, targets, t, p);
    OnlyPresentSeen(t.seenIds, t.freshIds, t.h.c4, t.c6, t.h.s2, t.s5, t.s6, p);
  }

  lemma PlaceLatest(files: map<nat, FileObject>, scan: Scan, refresh: bool, targets: map<nat, CopyTarget>, t: Trail, p: nat)
    requires IsTrail(files, scan, refresh, targets, t) && p in t.p6
    ensures p in t.p0
    ensures NotOlder(t.p0[p].latestPresence, t.p6[p].latestPresence, t.k6) <==>
            !PlaceSetBack(files, scan, refresh, t.p0, t.c0, t.k0, p)
    ensures p in t.h.p3 && PresenceTime(t.h.p3[p], t.h.k2, scan, scan.startTime, 1) ==
            if Zeroed(scan, t.p0, t.c0, p) then scan.startTime else PresenceTime(t.p0[p], t.k0, scan, scan.startTime, 1)
  {
    hide PhaseDone, StampedPlaces, StampedCopies, Refreshed, Rechecked, SeenBy, CoveredDirectly, PresentDirectly, IsTarget, Zeroed, Reseen,
         NotOlder, CheckIs, PresenceTime, SameColumns;
    TrailKeys(files, scan, refresh, targets, t);
    ZeroedIs(files, scan, refresh, targets, t, p);
    ReseenIs(files, scan, refresh, targets, t, p);
    RecheckedPlace(0, scan.finishedTime, scan, t.p0, t.k0, t.h.p2, t.h.k2, t.h.s2, p);
    StampedPlace(files, scan, t.h.p2, t.h.p3, p);
    RecheckedPlace(1, scan.startTime, scan, t.h.p3, t.h.k2, t.p6, t.k6, t.s6, p);
    PlaceLatestEnds(scan, p, t.p0[p], t.h.p2[p], t.h.p3[p], t.p6[p], t.k0, t.h.k2, t.k6, (p, 0) in t.h.s2, (p, 1) in t.s6);
  }

  // ----- what a finalization leaves alone -----

  /** The copy is reported missing, or is one a scan of its location may find. */
  ghost predicate Treats(scan: Scan, c: Copy) {
    || c.canonicalId in scan.missingCopies
    || (c.locationId == scan.locationId && (c.state == "present" || c.state == "corrupt" || c.state == "unknown"))
  }

  /** The path is reported missing, present at the scanned location for an active file of the collection, or
      stamped with the scan already. */
  ghost predicate Visits(files: map<nat, FileObject>, scan: Scan, id: nat, p: Place) {
    || id in scan.missingPaths || p.completeScan == Some(scan.scanId)
    || (p.locationId == scan.locationId && p.presence && p.fileId in files && files[p.fileId].active
        && files[p.fileId].collectionId == scan.collectionId)
  }

  /** Only copies and paths that concern the scan change; the owner of such a copy may get a newer latest presence. */
  ghost predicate LeavesAlone(files: map<nat, FileObject>, scan: Scan, places0: map<nat, Place>, copies0: map<nat, Copy>,
                              places: map<nat, Place>, copies: map<nat, Copy>)
  {
    && places.Keys == places0.Keys && copies.Keys == copies0.Keys
    && (forall c :: c in copies && !Treats(scan, copies0[c]) ==> copies[c] == copies0[c])
    && (forall p :: p in places && !Visits(files, scan, p, places0[p]) ==>
          && places[p] == places0[p].(latestPresence := places[p].latestPresence)
          && ((forall c :: c in copies0 && copies0[c].owner == p ==> !Treats(scan, copies0[c])) ==> places[p] == places0[p]))
  }

  lemma PlaceUntouched(files: map<nat, FileObject>, scan: Scan, refresh: bool, targets: map<nat, CopyTarget>, t: Trail, p: nat)
    requires IsTrail(files, scan, refresh, targets, t) && p in t.p6
    ensures p in t.p0
    ensures !Zeroed(scan, t.p0, t.c0, p) && !(refresh && Reseen(files, Expected(files, scan, t.p0), scan, t.c0, p)) ==>
              t.p6[p].latestPresence == t.p0[p].latestPresence
  {
    hide PhaseDone, StampedPlaces, StampedCopies, Refreshed, Rechecked, SeenBy, CoveredDirectly, PresentDirectly, IsTarget, Zeroed, Reseen,
         NotOlder, CheckIs, PresenceTime, SameColumns;
    TrailKeys(files, scan, refresh, targets, t);
    ZeroedIs(files, scan, refresh, targets, t, p);
    ReseenIs(files, scan, refresh, targets, t, p);
    RecheckedPlace(0, scan.finishedTime, scan, t.p0, t.k0, t.h.p2, t.h.k2, t.h.s2, p);
    StampedPlace(files, scan, t.h.p2, t.h.p3, p);
    RecheckedPlace(1, scan.startTime, scan, t.h.p3, t.h.k2, t.p6, t.k6, t.s6, p);
  }

  lemma UnvisitedPlace(files: map<nat, FileObject>, scan: Scan, refresh: bool, id: nat, before: Place, after: Place)
    requires PlaceFinal(files, scan, refresh, id, before, after) && !Visits(files, scan, id, before)
    ensures after == before.(latestPresence := after.latestPresence)
  {
  }

  lemma UntreatedCopy(files: map<nat, FileObject>, places: map<nat, Place>, scan: Scan, refresh: bool, before: Copy, after: Copy,
                      checks: seq<CheckRow>)
    requires CopyFinal(files, places, scan, refresh, before, after, checks) && !Treats(scan, before)
    ensures after == before
  {
    hide CoveredDirectly, PresentDirectly, Shows;
  }

  lemma UnownedPlace(files: map<nat, FileObject>, scan: Scan, places0: map<nat, Place>, copies0: map<nat, Copy>, p: nat)
    requires p in places0 && !Visits(files, scan, p, places0[p])
    requires forall c :: c in copies0 && copies0[c].owner == p ==> !Treats(scan, copies0[c])
    ensures !Zeroed(scan, places0, copies0, p) && !Reseen(files, Expected(files, scan, places0), scan, copies0, p)
  {
    hide PresentDirectly;
  }

  /** Whatever does not concern the scan stays as it was. */
  lemma LeftAlone(files: map<nat, FileObject>, scan: Scan, refresh: bool, targets: map<nat, CopyTarget>, t: Trail)
    requires IsTrail(files, scan, refresh, targets, t)
    ensures LeavesAlone(files, scan, t.p0, t.c0, t.p6, t.c6)
  {
    hide IsTrail, PlaceFinal, CopyFinal, Treats, Visits, Zeroed, Reseen, HistoryKept, Expected;
    RowsEnd(files, scan, refresh, targets, t);
    forall c | c in t.c6 && !Treats(scan, t.c0[c]) ensures t.c6[c] == t.c0[c] {
      UntreatedCopy(files, Expected(files, scan, t.p0), scan, refresh, t.c0[c], t.c6[c], t.k6);
    }
    forall p | p in t.p6 && !Visits(files, scan, p, t.p0[p])
      ensures t.p6[p] == t.p0[p].(latestPresence := t.p6[p].latestPresence)
      ensures (forall c :: c in t.c0 && t.c0[c].owner == p ==> !Treats(scan, t.c0[c])) ==> t.p6[p] == t.p0[p]
    {
      UnvisitedPlace(files, scan, refresh, p, t.p0[p], t.p6[p]);
      if forall c :: c in t.c0 && t.c0[c].owner == p ==> !Treats(scan, t.c0[c]) {
        UnownedPlace(files, scan, t.p0, t.c0, p);
        PlaceUntouched(files, scan, refresh, targets, t, p);
      }
    }
  }

  // ----- what a finalization records -----

  /** A file of the collection has the copy's path at the scanned location, whether present or not. */
  ghost predicate IsCovered(files: map<nat, FileObject>, places: map<nat, Place>, scan: Scan, c: Copy) {
    exists p :: p in places && places[p].locationId == scan.locationId && places[p].representation != "annex_content"
                && places[p].fileId in files && files[places[p].fileId].collectionId == scan.collectionId
                && LiesAt(files, places, c, files[places[p].fileId].path)
  }

  /** A path at the location that the scan saw has the copy's path, or is the link of its annexed content. */
  ghost predicate IsFound(files: map<nat, FileObject>, places: map<nat, Place>, scan: Scan, c: Copy) {
    exists p :: p in places && places[p].locationId == scan.locationId
                && places[p].completeScan == Some(scan.scanId) && places[p].presence
                && (|| (places[p].representation != "annex_content" && places[p].fileId in files
                        && LiesAt(files, places, c, files[places[p].fileId].path))
                    || (places[p].representation == "annex_locked_symlink" && c.externalId.Some?
                        && places[p].externalId == c.externalId))
  }

  /** A copy the scan may find: at its location, and neither missing nor superseded. */
  ghost predicate MayFind(scan: Scan, c: Copy) {
    && c.canonicalId !in scan.missingCopies && c.locationId == scan.locationId
    && (c.state == "present" || c.state == "corrupt" || c.state == "unknown")
  }

  /** The marks of a finalization: who is missing, who carries the scan's stamp, and whose latest check is its own. */
  ghost predicate Records(files: map<nat, FileObject>, scan: Scan, refresh: bool, places0: map<nat, Place>, copies0: map<nat, Copy>,
                          places: map<nat, Place>, copies: map<nat, Copy>, checks: seq<CheckRow>)
  {
    && places.Keys == places0.Keys && copies.Keys == copies0.Keys
    && (forall p :: p in places ==>
          && (places[p].presence <==> places0[p].presence && p !in scan.missingPaths)
          && (places[p].completeScan == Some(scan.scanId) <==> Visits(files, scan, p, places0[p]))
          && SeenRecorded(scan, refresh && Visits(files, scan, p, places0[p]) && places[p].presence, places0[p].seenTime, places[p].seenTime))
    && (forall c :: c in copies ==> CopyRecorded(files, scan, refresh, places0, places, copies0[c], copies[c], checks))
  }

  ghost predicate CopyRecorded(files: map<nat, FileObject>, scan: Scan, refresh: bool, places0: map<nat, Place>, places: map<nat, Place>,
                               before: Copy, after: Copy, checks: seq<CheckRow>)
  {
    && after.state == (if before.canonicalId in scan.missingCopies then "missing" else before.state)
    && (after.completeScan == Some(scan.scanId) <==>
          || before.completeScan == Some(scan.scanId) || before.canonicalId in scan.missingCopies
          || (MayFind(scan, before) && IsCovered(files, places0, scan, before)))
    && (before.canonicalId in scan.missingCopies ==> LatestShows(after, checks, 0))
    && (refresh && MayFind(scan, before) && IsFound(files, places, scan, before) ==> LatestShows(after, checks, 1))
    && (before.canonicalId !in scan.missingCopies && !(refresh && MayFind(scan, before) && IsFound(files, places, scan, before)) ==>
          after.latestPresence == before.latestPresence)
  }

  /** A path that is seen was last seen when the scan began, unless it was seen later. */
  ghost predicate SeenRecorded(scan: Scan, isSeen: bool, before: int, after: int) {
    if isSeen then after >= before && after >= scan.startTime && (after == before || after == scan.startTime) else after == before
  }

  ghost predicate LatestShows(c: Copy, checks: seq<CheckRow>, presence: int) {
    c.latestPresence.Some? && c.latestPresence.value < |checks| && checks[c.latestPresence.value].presence == presence
  }

  lemma CoveredExactly(files: map<nat, FileObject>, places0: map<nat, Place>, scan: Scan, c: Copy)
    ensures CoveredDirectly(files, Expected(files, scan, places0), c, scan) <==> IsCovered(files, places0, scan, c)
  {
    var places := Expected(files, scan, places0);
    if p :| p in places0 && places0[p].locationId == scan.locationId && places0[p].representation != "annex_content"
            && places0[p].fileId in files && files[places0[p].fileId].collectionId == scan.collectionId
            && LiesAt(files, places0, c, files[places0[p].fileId].path) {
      assert p in places && PathOf(files, places, c) == Some(files[places[p].fileId].path);
    }
  }

  lemma FoundExactly(files: map<nat, FileObject>, places: map<nat, Place>, scan: Scan, c: Copy)
    ensures PresentDirectly(files, places, c, scan) <==> IsFound(files, places, scan, c)
  {
    if p :| p in places && places[p].locationId == scan.locationId && places[p].completeScan == Some(scan.scanId) && places[p].presence
            && places[p].representation != "annex_content" && places[p].fileId in files
            && LiesAt(files, places, c, files[places[p].fileId].path) {
      assert PathOf(files, places, c) == Some(files[places[p].fileId].path);
    }
  }

  lemma CopyRecords(files: map<nat, FileObject>, scan: Scan, refresh: bool, places0: map<nat, Place>, places: map<nat, Place>,
                    before: Copy, after: Copy, checks: seq<CheckRow>)
    requires CopyFinal(files, Expected(files, scan, places0), scan, refresh, before, after, checks)
    requires SameColumns(Expected(files, scan, places0), places)
    ensures CopyRecorded(files, scan, refresh, places0, places, before, after, checks)
  {
    hide CoveredDirectly, PresentDirectly, Expected, SameColumns, IsCovered, IsFound;
    CoveredExactly(files, places0, scan, before);
    SameLookups(files, Expected(files, scan, places0), places, before, before, scan);
    FoundExactly(files, places, scan, before);
  }

  /** Every mark a finalization leaves, from the tables before it. */
  lemma RecordsEnd(files: map<nat, FileObject>, scan: Scan, refresh: bool, targets: map<nat, CopyTarget>, t: Trail)
    requires IsTrail(files, scan, refresh, targets, t)
    ensures Records(files, scan, refresh, t.p0, t.c0, t.p6, t.c6, t.k6)
  {
    hide IsTrail, CopyFinal, CopyRecorded, HistoryKept, Expected, SameColumns;
    RowsEnd(files, scan, refresh, targets, t);
    PlaceRowsEnd(files, scan, refresh, targets, t);
    forall c | c in t.c6 ensures CopyRecorded(files, scan, refresh, t.p0, t.p6, t.c0[c], t.c6[c], t.k6) {
      CopyRecords(files, scan, refresh, t.p0, t.p6, t.c0[c], t.c6[c], t.k6);
    }
  }

  lemma CopyLatest(files: map<nat, FileObject>, scan: Scan, refresh: bool, targets: map<nat, CopyTarget>, t: Trail, c: nat)
    requires IsTrail(files, scan, refresh, targets, t) && c in t.c6
    requires CopyRefs(t.c0, t.k0) && forall x :: x in t.c0 ==> t.c0[x].owner in t.p0
    ensures c in t.c0
    ensures NotOlder(t.c0[c].latestPresence, t.c6[c].latestPresence, t.k6) <==>
            !CopySetBack(files, scan, refresh, t.p0, t.c0, t.k0, c)
  {
    hide PhaseDone, StampedPlaces, StampedCopies, Refreshed, Rechecked, SeenBy, CoveredDirectly, PresentDirectly, IsTarget, Zeroed, FoundPresent,
         PresenceTime, SameColumns, ShowsLater, NotOlder, CheckIs;
    TrailKeys(files, scan, refresh, targets, t);
    CopyTrail(files, scan, refresh, targets, t, c);
    FreshIs(files, scan, refresh, targets, t, c);
    var o := t.c0[c].owner;
    PlaceLatest(files, scan, refresh, targets, t, o);
    if t.c0[c].canonicalId in scan.missingCopies {
      ShownBy(MissingCopies, t.h.gone, t.c0, t.h.c2, t.h.s1, t.h.s2, c);
      RecheckedPlace(0, scan.finishedTime, scan, t.p0, t.k0, t.h.p2, t.h.k2, t.h.s2, o);
      NotTarget(t.h.c2[c], scan);
      CheckStays(t.h.c2[c].latestPresence, t.h.k2, t.k6, 0, PresenceTime(t.p0[o], t.k0, scan, scan.finishedTime, 0));
      CopyLatestEnds(t.c0[c].latestPresence, t.c6[c].latestPresence, t.k0, t.k6, 0,
                     PresenceTime(t.p0[o], t.k0, scan, scan.finishedTime, 0));
    } else if c in t.freshIds {
      ShownBy(SeenCopies, t.freshIds, t.h.c4, t.c6, t.s5, t.s6, c);
      RecheckedPlace(1, scan.startTime, scan, t.h.p3, t.h.k2, t.p6, t.k6, t.s6, o);
      CopyLatestEnds(t.c0[c].latestPresence, t.c6[c].latestPresence, t.k0, t.k6, 1,
                     PresenceTime(t.h.p3[o], t.h.k2, scan, scan.startTime, 1));
    } else {
      LatestStays(t.c0[c].latestPresence, t.k6);
    }
  }

  lemma ShownBy(phase: Phase, done: seq<nat>, copies0: map<nat, Copy>, copies: map<nat, Copy>,
                seen0: map<(nat, int), nat>, seen: map<(nat, int), nat>, c: nat)
    requires SeenBy(phase, done, copies0, copies, seen0, seen) && c in copies && c in done && !OverPaths(phase)
    ensures RowShows(phase, c, copies, seen)
  {
  }

  lemma NotTarget(c: Copy, scan: Scan)
    requires c.state == "missing"
    ensures !IsTarget(c, scan)
  {
  }

  lemma CheckStays(latest: Option<nat>, checks0: seq<CheckRow>, checks: seq<CheckRow>, presence: int, time: int)
    requires CheckIs(latest, checks0, presence, time) && checks0 <= checks
    ensures CheckIs(latest, checks, presence, time)
  {
  }

  lemma LatestStays(latest: Option<nat>, checks: seq<CheckRow>)
    ensures NotOlder(latest, latest, checks)
  {
  }

  /** The freshness of every place and every copy, exactly. */
  lemma LatestsEnd(files: map<nat, FileObject>, scan: Scan, refresh: bool, targets: map<nat, CopyTarget>, t: Trail)
    requires IsTrail(files, scan, refresh, targets, t)
    requires CopyRefs(t.c0, t.k0) && forall x :: x in t.c0 ==> t.c0[x].owner in t.p0
    ensures t.p6.Keys == t.p0.Keys && t.c6.Keys == t.c0.Keys
    ensures forall p :: p in t.p6 ==>
              (NotOlder(t.p0[p].latestPresence, t.p6[p].latestPresence, t.k6) <==>
               !PlaceSetBack(files, scan, refresh, t.p0, t.c0, t.k0, p))
    ensures forall c :: c in t.c6 ==>
              (NotOlder(t.c0[c].latestPresence, t.c6[c].latestPresence, t.k6) <==>
               !CopySetBack(files, scan, refresh, t.p0, t.c0, t.k0, c))
  {
    hide IsTrail, NotOlder, PlaceSetBack, CopySetBack, CopyRefs;
    TrailKeys(files, scan, refresh, targets, t);
    forall p | p in t.p6
      ensures NotOlder(t.p0[p].latestPresence, t.p6[p].latestPresence, t.k6) <==>
              !PlaceSetBack(files, scan, refresh, t.p0, t.c0, t.k0, p)
    {
      PlaceLatest(files, scan, refresh, targets, t, p);
    }
    forall c | c in t.c6
      ensures NotOlder(t.c0[c].latestPresence, t.c6[c].latestPresence, t.k6) <==>
              !CopySetBack(files, scan, refresh, t.p0, t.c0, t.k0, c)
    {
      CopyLatest(files, scan, refresh, targets, t, c);
    }
  }

  lemma OnlyPresentSeen(seenIds: seq<nat>, freshIds: seq<nat>, c4: map<nat, Copy>, c6: map<nat, Copy>,
                        s2: map<(nat, int), nat>, s5: map<(nat, int), nat>, s6: map<(nat, int), nat>, p: nat)
    requires SeenBy(SeenPaths, seenIds, c4, c4, s2, s5) && SeenBy(SeenCopies, freshIds, c4, c6, s5, s6)
    requires forall k :: k in s2 ==> k.1 == 0
    ensures (p, 1) in s6 <==> p in seenIds || Touches(SeenCopies, freshIds, c4, p)
  {
    hide RowShows;
    assert Touches(SeenPaths, seenIds, c4, p) <==> p in seenIds;
  }

  // ----- a place that is set back -----

  const SAMPLE_FILES := map[
    10 := FileObject("file_a", 1, PathRef("utf8", [1]), None, Some(5), "unresolved", true, 1),
    11 := FileObject("file_b", 1, PathRef("utf8", [2]), None, Some(5), "unresolved", true, 1)]

  /** Two locked aliases of one annex key; the first, known present at time 100, owns the key's copy. */
  const SAMPLE_PLACES := map[
    0 := Place(10, 7, "annex_locked_symlink", None, Some(5), true, Some(3), Some(0), 1, 100, None),
    1 := Place(11, 7, "annex_locked_symlink", None, Some(5), true, Some(3), None, 1, 60, None)]

  const SAMPLE_COPIES := map[
    3 := Copy("copy_k", 0, 7, "utf8", Some(PathRef("utf8", [9])), None, Some(5), "annex", "present", 1, Some(0), None, None)]

  const SAMPLE_CHECKS := [CheckRow(0, 100, 1, 0, None)]

  /** A scan that began at 60 and found the first alias gone and the second in place. */
  const SAMPLE_SCAN := Scan("scan_1", 7, 1, "batch_1", 2, 60, 70, {0}, {}, map[])

  lemma SampleTables()
    ensures TablesOk((path: PathRef) => path.encoding, SAMPLE_FILES, SAMPLE_PLACES, SAMPLE_COPIES)
  {
  }

  /** Valid tables on which a finalization succeeds and sets a place back from time 100 to time 60. */
  lemma ClockRunsBack()
    ensures TablesOk((path: PathRef) => path.encoding, SAMPLE_FILES, SAMPLE_PLACES, SAMPLE_COPIES)
    ensures CheckRefs(SAMPLE_PLACES, SAMPLE_CHECKS) && CopyRefs(SAMPLE_COPIES, SAMPLE_CHECKS)
    ensures !ReviveRefused(SAMPLE_COPIES, SAMPLE_SCAN)
    ensures PlaceSetBack(SAMPLE_FILES, SAMPLE_SCAN, true, SAMPLE_PLACES, SAMPLE_COPIES, SAMPLE_CHECKS, 0)
    ensures CopySetBack(SAMPLE_FILES, SAMPLE_SCAN, true, SAMPLE_PLACES, SAMPLE_COPIES, SAMPLE_CHECKS, 3)
  {
    hide TablesOk;
    SampleTables();
    assert Zeroed(SAMPLE_SCAN, SAMPLE_PLACES, SAMPLE_COPIES, 0);
    var expected := Expected(SAMPLE_FILES, SAMPLE_SCAN, SAMPLE_PLACES);
    assert 1 in expected && expected[1].completeScan == Some("scan_1");
    assert PresentDirectly(SAMPLE_FILES, expected, SAMPLE_COPIES[3], SAMPLE_SCAN);
    assert FoundPresent(SAMPLE_FILES, expected, SAMPLE_SCAN, SAMPLE_COPIES[3]);
  }

  lemma FreshCache(checks: seq<CheckRow>)
    ensures OncePerPresence(map[], checks, |checks|) && SeenRefs(map[], checks)
  {
  }

  class ScanFinalizer {
    const catalog: Catalog
    const scan: Scan
    var seen: map<(nat, int), nat>
    var targets: map<nat, CopyTarget>
    ghost var start: nat  // checks in the history when this finalization began

    constructor (catalog: Catalog, scan: Scan)
      ensures this.catalog == catalog && this.scan == scan && seen == map[] && targets == map[] && start == |catalog.checks|
    {
      this.catalog, this.scan, seen, targets, start := catalog, scan, map[], map[], |catalog.checks|;
    }

    /** References in the tables and in the cache point at existing checks. */
    ghost predicate Valid()
      reads this, catalog
    {
      && catalog.Valid()
      && CheckRefs(catalog.places, catalog.checks) && CopyRefs(catalog.copies, catalog.checks)
      && SeenRefs(seen, catalog.checks)
      && OncePerPresence(seen, catalog.checks, start)
    }

    /** Append a check, but keep an equal presence known from a later time as the latest one. */
    method AppendPresence(binding: nat, time: int, presence: int) returns (id: nat)
      requires catalog.Valid() && binding in catalog.places && presence >= 0
      modifies catalog`places, catalog`checks
      ensures catalog.Valid() && catalog.checks == old(catalog.checks) + [CheckRow(binding, time, presence, 0, None)]
      ensures var place := old(catalog.places)[binding];
              id == if ShowsLater(place.latestPresence, old(catalog.checks), presence, time) then place.latestPresence.value
                    else |old(catalog.checks)|
      ensures catalog.places == old(catalog.places)[binding := old(catalog.places)[binding].(latestPresence := Some(id))]
    {
      hide TablesOk, IdsBelow, NamesUnique;
      var place := catalog.places[binding];
      var previous := if Shows(place.latestPresence, catalog.checks, presence) then place.latestPresence else None;
      id := catalog.AppendCheck(binding, time, presence, 0, None);
      if previous.Some? && catalog.checks[previous.value].checkedAt > time {
        ghost var places1 := catalog.places;
        catalog.places := catalog.places[binding := catalog.places[binding].(latestPresence := previous)];
        PlacesChanged(catalog.keyOf, catalog.files, places1, catalog.places, catalog.copies);
        id := previous.value;
      }
    }

    /** `presence_check`: reuse what this finalization or batch already checked, else append one check. */
    method PresenceCheck(binding: nat, time: int, presence: int) returns (id: nat)
      requires Valid() && binding in catalog.places && presence in {0, 1}
      modifies this`seen, catalog`places, catalog`checks
      ensures Valid() && old(catalog.checks) <= catalog.checks && |catalog.checks| <= |old(catalog.checks)| + 1
      ensures id < |catalog.checks| && catalog.checks[id].presence == presence
      ensures old((binding, presence) in seen) ==>
                id == old(seen)[(binding, presence)] && catalog.checks == old(catalog.checks) && catalog.places == old(catalog.places)
      ensures seen == old(seen)[(binding, presence) := id]
      ensures |catalog.checks| > |old(catalog.checks)| ==>
                (binding, presence) !in old(seen) && catalog.checks[|old(catalog.checks)|] == CheckRow(binding, time, presence, 0, None)
      ensures OnlyChecked(old(catalog.places), catalog.places, binding)
      ensures NotOlder(old(catalog.places)[binding].latestPresence, catalog.places[binding].latestPresence, catalog.checks)
      ensures CheckedOnce(presence, time, scan, binding, old(catalog.places), old(catalog.checks), old(seen),
                          catalog.places, catalog.checks, seen)
      ensures (binding, presence) !in old(seen) ==> catalog.places[binding].latestPresence == Some(id)
    {
      hide TablesOk, IdsBelow, NamesUnique, OncePerPresence, CheckedOnce, CheckRefs, PresenceTime, DirectRow, SeenRefs, NotOlder, CopyRefs, OnlyChecked, Catalog.Valid;
      ghost var seen0, places0, checks0 := seen, catalog.places, catalog.checks;
      if (binding, presence) in seen {
        SeenRefsAt(seen, checks0, (binding, presence));
        AlreadyChecked(presence, time, scan, binding, places0, checks0, seen);
        return seen[(binding, presence)];
      }
      var place := catalog.places[binding];
      if DirectRow(place, catalog.checks, scan, presence) {
        DirectShows(place, catalog.checks, scan, presence);
        CheckedDirectly(presence, time, scan, binding, places0, checks0, seen);
        id := place.latestPresence.value;
      } else {
        id := AppendPresence(binding, time, presence);
        CheckedAnew(presence, time, scan, binding, places0, checks0, seen, catalog.places, id);
      }
      SeenRefsNext(seen0, checks0, catalog.checks, (binding, presence), id);
      CopyRefsGrow(catalog.copies, checks0, catalog.checks);
      seen := seen[(binding, presence) := id];
      StillOnce(seen0, checks0, seen, catalog.checks, binding, presence, id, start);
    }

    /** Which ids a phase visits. */
    predicate Selected(phase: Phase, id: nat)
      reads this, catalog
    {
      match phase
      case MissingPaths => id in catalog.places && id in scan.missingPaths
      case MissingCopies => id in catalog.copies && catalog.copies[id].canonicalId in scan.missingCopies
      case SeenPaths => id in catalog.places && catalog.places[id].completeScan == Some(scan.scanId) && catalog.places[id].presence
      case SeenCopies => id in targets && targets[id].present && id in catalog.copies
    }

    method MissPath(id: nat)
      requires Valid() && id in catalog.places
      modifies this`seen, catalog`places, catalog`checks
      ensures Valid()
      ensures old(catalog.checks) <= catalog.checks
      ensures PhaseDone(MissingPaths, scan, [id], old(catalog.places), catalog.copies, catalog.places, catalog.copies, catalog.checks)
      ensures CheckedOnce(PresenceOf(MissingPaths), TimeOf(MissingPaths, scan), scan, id, old(catalog.places), old(catalog.checks), old(seen),
                          catalog.places, catalog.checks, seen)
    {
      hide TablesOk, IdsBelow, NamesUnique, NotOlder, OncePerPresence, PhaseDone, CheckRefs, CheckedOnce, SeenRefs;
      var check := PresenceCheck(id, scan.finishedTime, 0);
      ghost var places1 := catalog.places;
      var row := catalog.places[id].(presence := false, completeScan := Some(scan.scanId), lastRecord := scan.record, latestPresence := Some(check));
      catalog.places := catalog.places[id := row];
      PlacesChanged(catalog.keyOf, catalog.files, places1, catalog.places, catalog.copies);
      CheckedRow(PresenceOf(MissingPaths), TimeOf(MissingPaths, scan), scan, id, old(catalog.places), old(catalog.checks), old(seen),
                 places1, catalog.checks, seen, row);
      PathStepped(MissingPaths, scan, id, old(catalog.places), places1, row, catalog.copies, catalog.checks);
    }

    method SeePath(id: nat)
      requires Valid() && id in catalog.places
      modifies this`seen, catalog`places, catalog`checks
      ensures Valid()
      ensures old(catalog.checks) <= catalog.checks
      ensures PhaseDone(SeenPaths, scan, [id], old(catalog.places), catalog.copies, catalog.places, catalog.copies, catalog.checks)
      ensures CheckedOnce(PresenceOf(SeenPaths), TimeOf(SeenPaths, scan), scan, id, old(catalog.places), old(catalog.checks), old(seen),
                          catalog.places, catalog.checks, seen)
    {
      hide TablesOk, IdsBelow, NamesUnique, NotOlder, OncePerPresence, PhaseDone, CheckRefs, CheckedOnce, SeenRefs;
      var check := PresenceCheck(id, scan.startTime, 1);
      ghost var places1 := catalog.places;
      var row := catalog.places[id].(seenTime := Later(catalog.places[id].seenTime, scan.startTime), latestPresence := Some(check));
      catalog.places := catalog.places[id := row];
      PlacesChanged(catalog.keyOf, catalog.files, places1, catalog.places, catalog.copies);
      CheckedRow(PresenceOf(SeenPaths), TimeOf(SeenPaths, scan), scan, id, old(catalog.places), old(catalog.checks), old(seen),
                 places1, catalog.checks, seen, row);
      PathStepped(SeenPaths, scan, id, old(catalog.places), places1, row, catalog.copies, catalog.checks);
    }

    /** A missing candidate becomes missing even if it was superseded, unless the index then refuses it. */
    method MissCopy(id: nat) returns (r: Result<(), ProjectionError>)
      requires Valid() && id in catalog.copies
      modifies this`seen, catalog`places, catalog`checks, catalog`copies
      ensures old(catalog.checks) <= catalog.checks
      ensures r.Ok? <==> Revivable(id, old(catalog.copies))
      ensures r.Ok? ==> Valid() && PhaseDone(MissingCopies, scan, [id], old(catalog.places), old(catalog.copies),
                                             catalog.places, catalog.copies, catalog.checks)
      ensures r.Ok? ==> CheckedOnce(PresenceOf(MissingCopies), TimeOf(MissingCopies, scan), scan, old(catalog.copies)[id].owner,
                                    old(catalog.places), old(catalog.checks), old(seen), catalog.places, catalog.checks, seen)
      ensures r.Ok? ==> RowShows(MissingCopies, id, catalog.copies, seen)
    {
      hide TablesOk, IdsBelow, NamesUnique, NotOlder, OncePerPresence, IndexAllows, IndexOk, PhaseDone, CheckRefs, CheckedOnce, SeenRefs;
      TablesLinked(catalog.keyOf, catalog.files, catalog.places, catalog.copies);
      var check := PresenceCheck(catalog.copies[id].owner, scan.finishedTime, 0);
      var row := catalog.copies[id].(state := "missing", stateRecord := scan.record, completeScan := Some(scan.scanId),
                                     latestPresence := Some(check));
      ReviveExactly(catalog.copies, id, row);
      if !IndexAllows(catalog.copies, id, row) {
        return Err(UniqueViolation);
      }
      RowChanged(catalog.keyOf, catalog.files, catalog.places, catalog.copies, id, row);
      CopyStepped(MissingCopies, scan, id, old(catalog.places), catalog.places, catalog.copies[id].owner, catalog.copies, row,
                  catalog.checks);
      CopyRefsNext(catalog.copies, old(catalog.checks), catalog.checks, id, row);
      catalog.copies := catalog.copies[id := row];
      return Ok(());
    }

    method SeeCopy(id: nat)
      requires Valid() && id in catalog.copies
      modifies this`seen, catalog`places, catalog`checks, catalog`copies
      ensures Valid()
      ensures old(catalog.checks) <= catalog.checks
      ensures PhaseDone(SeenCopies, scan, [id], old(catalog.places), old(catalog.copies), catalog.places, catalog.copies, catalog.checks)
      ensures CheckedOnce(PresenceOf(SeenCopies), TimeOf(SeenCopies, scan), scan, old(catalog.copies)[id].owner,
                          old(catalog.places), old(catalog.checks), old(seen), catalog.places, catalog.checks, seen)
      ensures RowShows(SeenCopies, id, catalog.copies, seen)
    {
      hide TablesOk, IdsBelow, NamesUnique, NotOlder, OncePerPresence, IndexAllows, IndexOk, PhaseDone, CheckRefs, CheckedOnce, SeenRefs;
      TablesLinked(catalog.keyOf, catalog.files, catalog.places, catalog.copies);
      var check := PresenceCheck(catalog.copies[id].owner, scan.startTime, 1);
      var row := catalog.copies[id].(latestPresence := Some(check));
      SameState(catalog.copies, id, row);
      RowChanged(catalog.keyOf, catalog.files, catalog.places, catalog.copies, id, row);
      CopyStepped(SeenCopies, scan, id, old(catalog.places), catalog.places, catalog.copies[id].owner, catalog.copies, row,
                  catalog.checks);
      CopyRefsNext(catalog.copies, old(catalog.checks), catalog.checks, id, row);
      catalog.copies := catalog.copies[id := row];
    }

    /** What a phase does to one target; it never changes which ids the phase selects. */
    method Apply(phase: Phase, id: nat) returns (r: Result<(), ProjectionError>)
      requires Valid() && Selected(phase, id)
      modifies this`seen, catalog`places, catalog`checks, catalog`copies
      ensures old(catalog.checks) <= catalog.checks
      ensures r.Ok? ==> Valid() && PhaseDone(phase, scan, [id], old(catalog.places), old(catalog.copies),
                                             catalog.places, catalog.copies, catalog.checks)
      ensures r.Ok? ==> forall x: nat :: Selected(phase, x) == old(Selected(phase, x))
      ensures !OverPaths(phase) ==> id in old(catalog.copies)
      ensures r.Ok? ==> CheckedOnce(PresenceOf(phase), TimeOf(phase, scan), scan, BindingOf(phase, id, old(catalog.copies)),
                                    old(catalog.places), old(catalog.checks), old(seen), catalog.places, catalog.checks, seen)
      ensures r.Ok? && !OverPaths(phase) ==> RowShows(phase, id, catalog.copies, seen)
      ensures r.Ok? <==> (phase.MissingCopies? ==> Revivable(id, old(catalog.copies)))
    {
      hide Catalog.Valid, OncePerPresence, CheckedOnce, RowShows, SeenRefs, CheckRefs;
      match phase {
        case MissingPaths => MissPath(id);
        case SeenPaths => SeePath(id);
        case MissingCopies =>
          r := MissCopy(id);
          return;
        case SeenCopies => SeeCopy(id);
      }
      return Ok(());
    }

    /** The next page: the smallest selected ids beyond `after`. */
    method NextPage(phase: Phase, after: nat, bound: nat, limit: nat) returns (page: seq<nat>)
      requires limit > 0
      ensures Ascending(page) && |page| <= limit
      ensures forall k :: 0 <= k < |page| ==> after <= page[k] < bound && Selected(phase, page[k])
      ensures forall x :: after <= x < bound && Selected(phase, x) && (|page| < limit || x <= page[|page| - 1]) ==> x in page
    {
      page := [];
      var x := after;
      while x < bound && |page| < limit
        invariant after <= x && (x <= bound || x == after)
        invariant Ascending(page) && |page| <= limit
        invariant forall k :: 0 <= k < |page| ==> after <= page[k] < x && page[k] < bound && Selected(phase, page[k])
        invariant forall y :: after <= y < x && Selected(phase, y) ==> y in page
      {
        if Selected(phase, x) {
          AscendingSnoc(page, x);
          page := page + [x];
        }
        x := x + 1;
      }
    }

    /** `scan_targets`: every target of the phase exactly once, in order of id, while the rows change.
        `places0` and `checks0` are what the presence was before the first phase that checks it. */
    method ScanTargets(phase: Phase, bound: nat, pageSize: nat, ghost places0: map<nat, Place>, ghost checks0: seq<CheckRow>)
      returns (r: Result<seq<nat>, ProjectionError>)
      requires Valid() && pageSize > 0 && forall x: nat :: Selected(phase, x) ==> x < bound
      requires Rechecked(PresenceOf(phase), TimeOf(phase, scan), scan, places0, checks0, catalog.places, catalog.checks, seen)
      modifies this`seen, catalog`places, catalog`checks, catalog`copies
      ensures old(catalog.checks) <= catalog.checks
      ensures r.Ok? ==> Valid() && Ascending(r.value) && forall x: nat :: x in r.value <==> old(Selected(phase, x))
      ensures r.Err? <==> phase.MissingCopies? && ReviveRefused(old(catalog.copies), scan)
      ensures r.Ok? ==> PhaseDone(phase, scan, r.value, old(catalog.places), old(catalog.copies),
                                  catalog.places, catalog.copies, catalog.checks)
      ensures r.Ok? ==> Rechecked(PresenceOf(phase), TimeOf(phase, scan), scan, places0, checks0, catalog.places, catalog.checks, seen)
      ensures r.Ok? ==> SeenBy(phase, r.value, old(catalog.copies), catalog.copies, old(seen), seen)
    {
      hide Valid, Ascending, PhaseDone, Rechecked, SeenBy, ReviveRefused, Progress, Reaches, IsPage;
      ghost var goal := set x: nat | x < bound && Selected(phase, x);
      assert forall x: nat :: Selected(phase, x) <==> x in goal;
      var after := 0;
      var visited: seq<nat> := [];
      NothingReached(goal);
      NoProgress(phase, places0, checks0);
      while true
        invariant Valid() && old(catalog.checks) <= catalog.checks
        invariant forall x: nat :: Selected(phase, x) <==> x in goal
        invariant Reaches(visited, goal, after) && after <= bound
        invariant Progress(phase, visited, old(catalog.places), old(catalog.copies), old(seen), places0, checks0)
        decreases bound - after
      {
        var page := NextPage(phase, after, bound, pageSize);
        if |page| == 0 {
          break;
        }
        FullPage(page, goal, after);
        var treated := TreatPage(phase, page, after, goal, visited, old(catalog.places), old(catalog.copies), old(seen), places0, checks0);
        if treated.Err? {
          return Err(treated.error);
        }
        visited := visited + page;
        after := page[|page| - 1] + 1;
      }
      AllReached(visited, goal, after);
      ProgressEnds(phase, visited, old(catalog.places), old(catalog.copies), old(seen), places0, checks0);
      return Ok(visited);
    }

    /** One page of targets. */
    method TreatPage(phase: Phase, page: seq<nat>, ghost after: nat, ghost goal: set<nat>, ghost visited: seq<nat>,
                     ghost places0: map<nat, Place>, ghost copies0: map<nat, Copy>, ghost seen0: map<(nat, int), nat>,
                     ghost start0: map<nat, Place>, ghost startChecks: seq<CheckRow>)
      returns (r: Result<(), ProjectionError>)
      requires Valid() && IsPage(page, goal, after) && Reaches(visited, goal, after)
      requires forall x: nat :: Selected(phase, x) <==> x in goal
      requires Progress(phase, visited, places0, copies0, seen0, start0, startChecks)
      modifies this`seen, catalog`places, catalog`checks, catalog`copies
      ensures old(catalog.checks) <= catalog.checks
      ensures r.Ok? ==> Valid() && |page| > 0 && Reaches(visited + page, goal, page[|page| - 1] + 1)
      ensures r.Ok? ==> Progress(phase, visited + page, places0, copies0, seen0, start0, startChecks)
      ensures r.Ok? ==> forall x: nat :: Selected(phase, x) <==> x in goal
      ensures r.Err? ==> phase.MissingCopies? && ReviveRefused(copies0, scan)
    {
      hide Valid, ReviveRefused, Progress, Reaches, IsPage, Selected;
      ghost var done, reached := visited, after;
      for i := 0 to |page|
        invariant done == visited + page[..i] && reached == (if i == 0 then after else page[i - 1] + 1)
        invariant Valid() && Reaches(done, goal, reached) && old(catalog.checks) <= catalog.checks
        invariant forall x: nat :: Selected(phase, x) <==> x in goal
        invariant Progress(phase, done, places0, copies0, seen0, start0, startChecks)
      {
        ReachNext(done, goal, page, after, i);
        r := Treat(phase, page[i], done, places0, copies0, seen0, start0, startChecks);
        if r.Err? {
          return;
        }
        done, reached := done + [page[i]], page[i] + 1;
      }
      NotEmpty(page, goal, after);
      assert done == visited + page;
      r := Ok(());
    }

    /** One target, within a phase. */
    method Treat(phase: Phase, target: nat, ghost visited: seq<nat>, ghost places0: map<nat, Place>, ghost copies0: map<nat, Copy>,
                 ghost seen0: map<(nat, int), nat>, ghost start0: map<nat, Place>, ghost startChecks: seq<CheckRow>)
      returns (r: Result<(), ProjectionError>)
      requires Valid() && Selected(phase, target) && target !in visited
      requires Progress(phase, visited, places0, copies0, seen0, start0, startChecks)
      requires forall x: nat :: x in visited ==> Selected(phase, x)
      modifies this`seen, catalog`places, catalog`checks, catalog`copies
      ensures old(catalog.checks) <= catalog.checks
      ensures r.Ok? ==> Valid() && Progress(phase, visited + [target], places0, copies0, seen0, start0, startChecks)
      ensures r.Ok? ==> forall x: nat :: Selected(phase, x) == old(Selected(phase, x))
      ensures r.Err? ==> phase.MissingCopies? && ReviveRefused(copies0, scan)
    {
      hide Valid, PhaseDone, Rechecked, SeenBy, CheckedOnce, RowShows, Revivable, ReviveRefused, RevivedApart;
      ghost var places1, copies1, checks1, seen1 := catalog.places, catalog.copies, catalog.checks, seen;
      r := Apply(phase, target);
      if r.Err? {
        StillRefused(phase, scan, visited, target, places0, copies0, places1, copies1, checks1);
      } else {
        ProgressNext(phase, visited, target, places0, copies0, seen0, start0, startChecks, places1, copies1, checks1, seen1);
      }
    }

    lemma NoProgress(phase: Phase, start0: map<nat, Place>, startChecks: seq<CheckRow>)
      requires Rechecked(PresenceOf(phase), TimeOf(phase, scan), scan, start0, startChecks, catalog.places, catalog.checks, seen)
      ensures Progress(phase, [], catalog.places, catalog.copies, seen, start0, startChecks)
    {
      hide PhaseDone, Rechecked, SeenBy, RevivedApart;
      NothingDone(phase, scan, catalog.places, catalog.copies, catalog.checks);
      NothingSeen(phase, catalog.copies, seen);
      NothingRevived(catalog.copies);
    }

    lemma ProgressEnds(phase: Phase, visited: seq<nat>, places0: map<nat, Place>, copies0: map<nat, Copy>,
                       seen0: map<(nat, int), nat>, start0: map<nat, Place>, startChecks: seq<CheckRow>)
      requires Progress(phase, visited, places0, copies0, seen0, start0, startChecks)
      requires phase.MissingCopies? ==> forall c: nat :: c in visited <==> c in copies0 && copies0[c].canonicalId in scan.missingCopies
      ensures PhaseDone(phase, scan, visited, places0, copies0, catalog.places, catalog.copies, catalog.checks)
      ensures Rechecked(PresenceOf(phase), TimeOf(phase, scan), scan, start0, startChecks, catalog.places, catalog.checks, seen)
      ensures SeenBy(phase, visited, copies0, catalog.copies, seen0, seen)
      ensures phase.MissingCopies? ==> !ReviveRefused(copies0, scan)
    {
      hide PhaseDone, Rechecked, SeenBy, RevivedApart, ReviveRefused;
      if phase.MissingCopies? { NeverRefused(copies0, scan, visited); }
    }

    /** Between two targets of a phase. */
    ghost predicate Progress(phase: Phase, visited: seq<nat>, places0: map<nat, Place>, copies0: map<nat, Copy>,
                             seen0: map<(nat, int), nat>, start0: map<nat, Place>, startChecks: seq<CheckRow>)
      reads this, catalog
    {
      && PhaseDone(phase, scan, visited, places0, copies0, catalog.places, catalog.copies, catalog.checks)
      && Rechecked(PresenceOf(phase), TimeOf(phase, scan), scan, start0, startChecks, catalog.places, catalog.checks, seen)
      && SeenBy(phase, visited, copies0, catalog.copies, seen0, seen)
      && (phase.MissingCopies? ==> RevivedApart(copies0, visited))
    }

    lemma ProgressNext(phase: Phase, visited: seq<nat>, id: nat, places0: map<nat, Place>, copies0: map<nat, Copy>,
                       seen0: map<(nat, int), nat>, start0: map<nat, Place>, startChecks: seq<CheckRow>,
                       places1: map<nat, Place>, copies1: map<nat, Copy>, checks1: seq<CheckRow>, seen1: map<(nat, int), nat>)
      requires id !in visited && (OverPaths(phase) || id in copies1) && checks1 <= catalog.checks
      requires PhaseDone(phase, scan, visited, places0, copies0, places1, copies1, checks1)
      requires Rechecked(PresenceOf(phase), TimeOf(phase, scan), scan, start0, startChecks, places1, checks1, seen1)
      requires SeenBy(phase, visited, copies0, copies1, seen0, seen1)
      requires phase.MissingCopies? ==> RevivedApart(copies0, visited) && Revivable(id, copies1)
      requires PhaseDone(phase, scan, [id], places1, copies1, catalog.places, catalog.copies, catalog.checks)
      requires CheckedOnce(PresenceOf(phase), TimeOf(phase, scan), scan, BindingOf(phase, id, copies1), places1, checks1, seen1,
                           catalog.places, catalog.checks, seen)
      requires !OverPaths(phase) ==> RowShows(phase, id, catalog.copies, seen)
      ensures Progress(phase, visited + [id], places0, copies0, seen0, start0, startChecks)
    {
      hide PhaseDone, Rechecked, SeenBy, CheckedOnce, RowShows, Revivable, RevivedApart, SameOwners;
      PhaseNext(phase, scan, visited, id, places0, copies0, places1, copies1, checks1, catalog.places, catalog.copies, catalog.checks);
      RecheckedNext(PresenceOf(phase), TimeOf(phase, scan), scan, BindingOf(phase, id, copies1), start0, startChecks,
                    places1, checks1, seen1, catalog.places, catalog.checks, seen);
      PhaseOwners(phase, scan, visited, places0, copies0, places1, copies1, checks1);
      PhaseOwners(phase, scan, [id], places1, copies1, catalog.places, catalog.copies, catalog.checks);
      CheckedKey(PresenceOf(phase), TimeOf(phase, scan), scan, BindingOf(phase, id, copies1), places1, checks1, seen1,
                 catalog.places, catalog.checks, seen);
      SeenNext(phase, visited, id, copies0, copies1, catalog.copies, seen0, seen1, seen);
      if phase.MissingCopies? { RevivedNext(scan, visited, id, places0, copies0, places1, copies1, checks1); }
    }

    /** `prepare_scan_copy_targets`. */
    method PrepareScanCopyTargets()
      requires catalog.Valid()
      modifies this`targets
      ensures targets.Keys == set c | c in catalog.copies && IsTarget(catalog.copies[c], scan)
      ensures forall c :: c in targets ==>
                && (targets[c].covered <==> CoveredDirectly(catalog.files, catalog.places, catalog.copies[c], scan))
                && (targets[c].present <==> PresentDirectly(catalog.files, catalog.places, catalog.copies[c], scan))
    {
      hide Catalog.Valid, CoveredDirectly, PresentDirectly, PathsOf, PresentPathsOf, AnnexIdsOf, PathOf;
      var paths := PathsOf(catalog.files, catalog.places, scan);
      var present := PresentPathsOf(catalog.files, catalog.places, scan);
      var annexIds := AnnexIdsOf(catalog.places, scan);
      targets := map c | c in catalog.copies && IsTarget(catalog.copies[c], scan) ::
        CopyTarget(InPaths(paths, PathOf(catalog.files, catalog.places, catalog.copies[c])),
                   InPaths(present, PathOf(catalog.files, catalog.places, catalog.copies[c]))
                   || (catalog.copies[c].externalId.Some? && catalog.copies[c].externalId.value in annexIds));
      forall c | c in targets
        ensures (targets[c].covered <==> CoveredDirectly(catalog.files, catalog.places, catalog.copies[c], scan))
                && (targets[c].present <==> PresentDirectly(catalog.files, catalog.places, catalog.copies[c], scan))
      {
        LookupExact(catalog.files, catalog.places, catalog.copies[c], scan);
      }
    }

    /** Every remaining present path of the collection at the location belongs to this scan. */
    method StampPaths()
      requires Valid()
      modifies catalog`places
      ensures Valid() && StampedPlaces(catalog.files, scan, old(catalog.places), catalog.places)
    {
      hide TablesOk, IdsBelow, NamesUnique, OncePerPresence;
      var places1 := catalog.places;
      catalog.places := map p | p in places1 ::
        if BelongsTo(catalog.files, scan, places1[p]) then places1[p].(completeScan := Some(scan.scanId)) else places1[p];
      PlacesChanged(catalog.keyOf, catalog.files, places1, catalog.places, catalog.copies);
    }

    /** Every covered copy belongs to this scan. */
    method StampCopies()
      requires Valid()
      modifies catalog`copies
      ensures Valid() && StampedCopies(targets, scan, old(catalog.copies), catalog.copies)
    {
      hide IdsBelow, NamesUnique, OncePerPresence, TablesOk;
      var copies1 := catalog.copies;
      catalog.copies := map c | c in copies1 ::
        if c in targets && targets[c].covered then copies1[c].(completeScan := Some(scan.scanId)) else copies1[c];
      assert catalog.copies.Keys == copies1.Keys;
      StampsKeep(catalog.keyOf, catalog.files, catalog.places, copies1, catalog.copies);
    }

    /** `finalize_scans_for_batch`, for one complete scan: every row ends as described, each place gets at
        most one new check of each presence, and the latest presence of a place or copy looks older than it
        was exactly when it was set back. It is refused exactly when a superseded candidate cannot be revived. */
    method FinalizeScan(bound: nat, refresh: bool) returns (r: Result<(), ProjectionError>)
      requires Valid() && (forall p :: p in catalog.places ==> p < bound) && (forall c :: c in catalog.copies ==> c < bound)
      modifies this, catalog`places, catalog`checks, catalog`copies
      ensures r.Err? <==> ReviveRefused(old(catalog.copies), scan)
      ensures r.Ok? ==> Valid() && start == |old(catalog.checks)| && OncePerPresence(seen, catalog.checks, start)
      ensures r.Ok? ==> HistoryKept(old(catalog.copies), old(catalog.checks), catalog.copies, catalog.checks)
      ensures r.Ok? ==> catalog.places.Keys == old(catalog.places).Keys && catalog.copies.Keys == old(catalog.copies).Keys
      ensures r.Ok? ==> forall p :: p in catalog.places ==>
                PlaceFinal(catalog.files, scan, refresh, p, old(catalog.places)[p], catalog.places[p])
      ensures r.Ok? ==> forall c :: c in catalog.copies ==>
                CopyFinal(catalog.files, Expected(catalog.files, scan, old(catalog.places)), scan, refresh, old(catalog.copies)[c], catalog.copies[c], catalog.checks)
      ensures r.Ok? ==> forall p :: p in catalog.places ==>
                (NotOlder(old(catalog.places)[p].latestPresence, catalog.places[p].latestPresence, catalog.checks) <==>
                 !PlaceSetBack(catalog.files, scan, refresh, old(catalog.places), old(catalog.copies), old(catalog.checks), p))
      ensures r.Ok? ==> forall c :: c in catalog.copies ==>
                (NotOlder(old(catalog.copies)[c].latestPresence, catalog.copies[c].latestPresence, catalog.checks) <==>
                 !CopySetBack(catalog.files, scan, refresh, old(catalog.places), old(catalog.copies), old(catalog.checks), c))
      ensures r.Ok? ==> LeavesAlone(catalog.files, scan, old(catalog.places), old(catalog.copies), catalog.places, catalog.copies)
      ensures r.Ok? ==> Records(catalog.files, scan, refresh, old(catalog.places), old(catalog.copies), catalog.places, catalog.copies, catalog.checks)
    {
      hide Catalog.Valid, HistoryKept, CheckRefs, CopyRefs, OncePerPresence, PlaceFinal, CopyFinal, Rechecked, SeenBy, SeenRefs, NotOlder,
           PlaceSetBack, CopySetBack, ReviveRefused, Refreshed, HalfTrail, LeavesAlone, Records;
      seen, start := map[], |catalog.checks|;
      FreshCache(catalog.checks);
      Owners();
      ghost var p0, c0, k0 := catalog.places, catalog.copies, catalog.checks;
      ghost var h: Half;
      r, h := RecordMissing(bound);
      if r.Err? {
        return;
      }
      ghost var p5, k5, s5, seenIds, freshIds := RefreshSeen(bound, refresh);
      ghost var t := Trail(p0, c0, k0, h, p5, k5, s5, catalog.places, catalog.copies, catalog.checks, seen, seenIds, freshIds);
      assert IsTrail(catalog.files, scan, refresh, targets, t);
      RowsEnd(catalog.files, scan, refresh, targets, t);
      LatestsEnd(catalog.files, scan, refresh, targets, t);
      LeftAlone(catalog.files, scan, refresh, targets, t);
      RecordsEnd(catalog.files, scan, refresh, targets, t);
    }

    /** The steps every scan takes: missing paths, missing copies, and the rows that belong to the scan. */
    method RecordMissing(bound: nat) returns (r: Result<(), ProjectionError>, ghost h: Half)
      requires Valid() && (forall p :: p in catalog.places ==> p < bound) && (forall c :: c in catalog.copies ==> c < bound)
      requires seen == map[]
      modifies this`seen, this`targets, catalog`places, catalog`checks, catalog`copies
      ensures r.Err? <==> ReviveRefused(old(catalog.copies), scan)
      ensures r.Ok? ==> Valid() && old(catalog.checks) <= catalog.checks == h.k2 && catalog.places == h.p3 && catalog.copies == h.c4 && seen == h.s2
      ensures r.Ok? ==> catalog.places.Keys == old(catalog.places).Keys && catalog.copies.Keys == old(catalog.copies).Keys
      ensures r.Ok? ==> HalfTrail(catalog.files, scan, targets, old(catalog.places), old(catalog.copies), old(catalog.checks), h)
      ensures r.Ok? ==> forall k :: k in seen ==> k.1 == 0
    {
      hide Catalog.Valid, CheckRefs, CopyRefs, CoveredDirectly, PresentDirectly, Ascending, PhaseDone, OncePerPresence,
           StampedPlaces, StampedCopies, IsTarget, SameColumns, Rechecked, SeenBy, SeenRefs, ReviveRefused;
      h := Half(map[], map[], map[], map[], map[], [], [], map[], map[], [], []);
      ghost var p0, c0, k0 := catalog.places, catalog.copies, catalog.checks;
      NothingRechecked(0, scan.finishedTime, scan, p0, k0, seen);
      var missing := ScanTargets(MissingPaths, bound, PAGE_SIZE, p0, k0);
      ghost var p1, k1, s1 := catalog.places, catalog.checks, seen;
      PathsOnly(MissingPaths, scan, missing.value, p0, c0, p1, catalog.copies, k1);
      var gone := ScanTargets(MissingCopies, bound, PAGE_SIZE, p0, k0);
      if gone.Err? {
        r := Err(gone.error);
        return;
      }
      ghost var p2, c2, k2, s2 := catalog.places, catalog.copies, catalog.checks, seen;
      CopiesOnly(MissingCopies, scan, gone.value, p1, c0, p2, c2, k2);
      StampPaths();
      PrepareScanCopyTargets();
      ghost var p3 := catalog.places;
      StampCopies();
      StampedKeys(catalog.files, targets, scan, p2, p3, c2, catalog.copies);
      OnlyMissingSeen(missing.value, gone.value, c0, c2, s1, s2);
      h := Half(p1, p2, p3, c2, catalog.copies, k1, k2, s1, s2, missing.value, gone.value);
      r := Ok(());
    }

    lemma Owners()
      requires catalog.Valid()
      ensures forall c :: c in catalog.copies ==> catalog.copies[c].owner in catalog.places
    {
      hide TablesOk;
      TablesLinked(catalog.keyOf, catalog.files, catalog.places, catalog.copies);
    }

    /** The last two phases, for a scan that reports unchanged files. */
    method RefreshSeen(bound: nat, refresh: bool)
      returns (ghost p5: map<nat, Place>, ghost k5: seq<CheckRow>, ghost s5: map<(nat, int), nat>, ghost seenIds: seq<nat>, ghost freshIds: seq<nat>)
      requires Valid() && (forall p :: p in catalog.places ==> p < bound) && (forall c :: c in catalog.copies ==> c < bound)
      requires forall k :: k in seen ==> k.1 == 0
      modifies this`seen, catalog`places, catalog`checks, catalog`copies
      ensures Valid() && old(catalog.checks) <= catalog.checks
      ensures Refreshed(scan, refresh, targets, old(catalog.places), old(catalog.copies), p5, k5,
                        catalog.places, catalog.copies, catalog.checks, seenIds, freshIds)
      ensures Rechecked(1, scan.startTime, scan, old(catalog.places), old(catalog.checks), catalog.places, catalog.checks, seen)
      ensures SeenBy(SeenPaths, seenIds, old(catalog.copies), old(catalog.copies), old(seen), s5)
      ensures SeenBy(SeenCopies, freshIds, old(catalog.copies), catalog.copies, s5, seen)
    {
      hide Catalog.Valid, Ascending, PhaseDone, OncePerPresence, Rechecked, SeenBy, SeenRefs, CheckRefs;
      p5, k5, s5, seenIds, freshIds := catalog.places, catalog.checks, seen, [], [];
      NothingRechecked(1, scan.startTime, scan, catalog.places, catalog.checks, seen);
      NothingSeen(SeenPaths, catalog.copies, seen);
      NothingSeen(SeenCopies, catalog.copies, seen);
      if refresh {
        ghost var p3, c4, k2 := catalog.places, catalog.copies, catalog.checks;
        var seenPaths := ScanTargets(SeenPaths, bound, PAGE_SIZE, p3, k2);
        p5, k5, s5, seenIds := catalog.places, catalog.checks, seen, seenPaths.value;
        PathsOnly(SeenPaths, scan, seenIds, p3, c4, p5, catalog.copies, k5);
        var seenCopies := ScanTargets(SeenCopies, bound, PAGE_SIZE, p3, k2);
        freshIds := seenCopies.value;
      }
    }
  }

  lemma StampsKeep(keyOf: PathRef -> string, files: map<nat, FileObject>, places: map<nat, Place>, copies0: map<nat, Copy>, copies: map<nat, Copy>)
    requires TablesOk(keyOf, files, places, copies0) && copies.Keys == copies0.Keys
    requires forall c :: c in copies ==> copies[c] == copies0[c].(completeScan := copies[c].completeScan)
    ensures TablesOk(keyOf, files, places, copies)
  {
    forall c | c in copies ensures IndexAllows(copies, c, copies[c]) && PathOf(files, places, copies[c]) == PathOf(files, places, copies0[c]) {
      assert IndexAllows(copies0, c, copies0[c]);
    }
    forall a, b | a in copies && b in copies && copies[a].canonicalId == copies[b].canonicalId ensures a == b {
      assert copies0[a].canonicalId == copies0[b].canonicalId;
    }
  }

  lemma SameState(copies: map<nat, Copy>, id: nat, row: Copy)
    requires IndexOk(copies) && id in copies && row.state == copies[id].state && SameKey(row, copies[id])
    ensures IndexAllows(copies, id, row)
  {
    assert IndexAllows(copies, id, copies[id]);
  }

  lemma StillOnce(seen0: map<(nat, int), nat>, checks0: seq<CheckRow>, seen: map<(nat, int), nat>, checks: seq<CheckRow>,
                  binding: nat, presence: int, id: nat, n0: nat)
    requires OncePerPresence(seen0, checks0, n0)
    requires checks0 <= checks && |checks| <= |checks0| + 1 && seen == seen0[(binding, presence) := id]
    requires |checks| > |checks0| ==> (binding, presence) !in seen0 && checks[|checks0|].place == binding && checks[|checks0|].presence == presence
    ensures OncePerPresence(seen, checks, n0)
  {
    forall k | n0 <= k < |checks| ensures (checks[k].place, checks[k].presence) in seen {
      if k < |checks0| { assert checks[k] == checks0[k]; }
    }
    forall i, j | n0 <= i < j < |checks| ensures (checks[i].place, checks[i].presence) != (checks[j].place, checks[j].presence) {
      assert checks[i] == checks0[i];
      if j < |checks0| { assert checks[j] == checks0[j]; }
    }
  }

  predicate Ascending(xs: seq<nat>) { forall i, j :: 0 <= i < j < |xs| ==> xs[i] < xs[j] }

  lemma AscendingSnoc(xs: seq<nat>, x: nat)
    requires Ascending(xs) && forall k :: 0 <= k < |xs| ==> xs[k] < x
    ensures Ascending(xs + [x])
  {
  }

  /** Of the targets, exactly those before `reached` are visited, in order. */
  ghost predicate Reaches(visited: seq<nat>, goal: set<nat>, reached: nat) {
    Ascending(visited) && forall x: nat :: x in visited <==> x < reached && x in goal
  }

  /** All targets from `after` to the last of the page, in order. */
  ghost predicate IsPage(page: seq<nat>, goal: set<nat>, after: nat) {
    && |page| > 0 && Ascending(page)
    && (forall k :: 0 <= k < |page| ==> after <= page[k] && page[k] in goal)
    && (forall x: nat :: after <= x <= page[|page| - 1] && x in goal ==> x in page)
  }

  lemma NothingReached(goal: set<nat>)
    ensures Reaches([], goal, 0)
  {
  }

  lemma FullPage(page: seq<nat>, goal: set<nat>, after: nat)
    requires |page| > 0 && Ascending(page)
    requires forall k :: 0 <= k < |page| ==> after <= page[k] && page[k] in goal
    requires forall x: nat :: after <= x && x in goal && x <= page[|page| - 1] ==> x in page
    ensures IsPage(page, goal, after)
  {
  }

  lemma NotEmpty(page: seq<nat>, goal: set<nat>, after: nat)
    requires IsPage(page, goal, after)
    ensures |page| > 0
  {
  }

  lemma AllReached(visited: seq<nat>, goal: set<nat>, reached: nat)
    requires Reaches(visited, goal, reached) && forall x: nat :: x in goal ==> x < reached
    ensures Ascending(visited) && forall x: nat :: x in visited <==> x in goal
  {
  }

  lemma ReachNext(visited: seq<nat>, goal: set<nat>, page: seq<nat>, after: nat, i: nat)
    requires IsPage(page, goal, after) && i < |page| && Reaches(visited, goal, if i == 0 then after else page[i - 1] + 1)
    ensures page[i] in goal && page[i] !in visited && (forall x: nat :: x in visited ==> x in goal)
    ensures Reaches(visited + [page[i]], goal, page[i] + 1)
  {
    var reached, target := if i == 0 then after else page[i - 1] + 1, page[i];
    assert forall x: nat :: reached <= x < target ==> x !in goal;
    VisitNext(visited, target);
  }

  lemma VisitNext(visited: seq<nat>, target: nat)
    requires Ascending(visited) && forall x :: x in visited ==> x < target
    ensures Ascending(visited + [target])
  {
    forall k | 0 <= k < |visited| ensures visited[k] < target { assert visited[k] in visited; }
    AscendingSnoc(visited, target);
  }
}
