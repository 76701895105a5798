/** Requested files, what this host can reach, and the greedy plan of devices to attach. */
module AttachmentPlan {
  import opened Wrappers

  datatype AppError = InvalidRequest | EmptyRequest | SqliteConflict

  datatype FileRef = FileRef(fileRefId: string, collectionId: string, active: bool, objectId: Option<string>, externalId: Option<string>)
  datatype Claim = Claim(copyClaimId: string, objectId: Option<string>, externalId: Option<string>, state: string, locationId: string)
  datatype Location = Location(status: string, deviceId: Option<string>, archiveRootId: Option<string>)
  datatype Device = Device(deviceId: string, status: string)

  /** The projected tables a request reads; devices in ascending order of their ids. */
  datatype Catalog = Catalog(
    files: map<string, FileRef>, claims: seq<Claim>, locations: map<string, Location>, devices: seq<Device>,
    accessibleRoots: set<string>)

  datatype ContentKey = ObjectKey(id: string) | ExternalKey(id: string) | FileKey(id: string)

  datatype Identity = Identity(key: ContentKey, objectId: Option<string>, externalId: Option<string>)

  function IdentityOf(f: FileRef): Identity {
    Identity(if f.objectId.Some? then ObjectKey(f.objectId.value)
             else if f.externalId.Some? then ExternalKey(f.externalId.value) else FileKey(f.fileRefId),
             f.objectId, f.externalId)
  }

  /** One row of `app_content_access`. */
  datatype Content = Content(identity: Identity, count: nat, accessible: bool, attachable: bool)

  predicate Matches(id: Identity, c: Claim) {
    if id.objectId.Some? then c.objectId == id.objectId else id.externalId.Some? && c.externalId == id.externalId
  }

  predicate OnDevice(cat: Catalog, c: Claim, d: Device) {
    && c.state == "present" && c.locationId in cat.locations && cat.locations[c.locationId].status == "active"
    && cat.locations[c.locationId].deviceId == Some(d.deviceId) && d.status == "active"
  }

  predicate DeviceHolds(cat: Catalog, d: Device, id: Identity) {
    exists i :: 0 <= i < |cat.claims| && Matches(id, cat.claims[i]) && OnDevice(cat, cat.claims[i], d)
  }

  predicate Attachable(cat: Catalog, id: Identity) {
    exists k :: 0 <= k < |cat.devices| && DeviceHolds(cat, cat.devices[k], id)
  }

  predicate Reachable(cat: Catalog, c: Claim) {
    && c.locationId in cat.locations && cat.locations[c.locationId].archiveRootId.Some?
    && cat.locations[c.locationId].archiveRootId.value in cat.accessibleRoots
  }

  predicate Accessible(cat: Catalog, id: Identity) {
    exists i, k :: && 0 <= i < |cat.claims| && 0 <= k < |cat.devices|
                   && Matches(id, cat.claims[i]) && OnDevice(cat, cat.claims[i], cat.devices[k]) && Reachable(cat, cat.claims[i])
  }

  datatype FileState = NotFound | WrongCollection | Removed | IsAccessible | AttachmentRequired | NoKnownCopy

  function ContentState(accessible: bool, attachable: bool): FileState {
    if accessible then IsAccessible else if attachable then AttachmentRequired else NoKnownCopy
  }

  function IdentityState(cat: Catalog, id: Identity): FileState { ContentState(Accessible(cat, id), Attachable(cat, id)) }

  predicate Wanted(cat: Catalog, collection: string, id: string) {
    id in cat.files && cat.files[id].collectionId == collection && cat.files[id].active
  }

  /** The state of one requested file, read off the catalog. */
  function StateOf(cat: Catalog, collection: string, id: string): FileState {
    if id !in cat.files then NotFound
    else if cat.files[id].collectionId != collection then WrongCollection
    else if !cat.files[id].active then Removed
    else IdentityState(cat, IdentityOf(cat.files[id]))
  }

  function CountState(cat: Catalog, collection: string, ids: seq<string>, s: FileState): nat {
    if |ids| == 0 then 0
    else CountState(cat, collection, ids[..|ids| - 1], s) + if StateOf(cat, collection, ids[|ids| - 1]) == s then 1 else 0
  }

  datatype AccessSummary = AccessSummary(
    accessible: nat, attachmentRequired: nat, noKnownCopy: nat, notFound: nat, wrongCollection: nat, removed: nat)

  datatype AttachmentStep = AttachmentStep(device: Device, newlyCovered: nat)

  datatype Plan = Plan(steps: seq<AttachmentStep>, noAttachableCopyCount: nat)

  // ----- weights of a content table -----

  function Weight(rows: seq<Content>): nat {
    if |rows| == 0 then 0 else Weight(rows[..|rows| - 1]) + rows[|rows| - 1].count
  }

  function StateWeight(cat: Catalog, rows: seq<Content>, s: FileState): nat {
    if |rows| == 0 then 0
    else StateWeight(cat, rows[..|rows| - 1], s) + if IdentityState(cat, rows[|rows| - 1].identity) == s then rows[|rows| - 1].count else 0
  }

  function CoveredBy(cat: Catalog, d: Device, rows: seq<Content>): nat {
    if |rows| == 0 then 0
    else CoveredBy(cat, d, rows[..|rows| - 1]) + if DeviceHolds(cat, d, rows[|rows| - 1].identity) then rows[|rows| - 1].count else 0
  }

  /** What could still be covered by attaching devices. */
  function AttachableWeight(cat: Catalog, rows: seq<Content>): nat {
    if |rows| == 0 then 0
    else AttachableWeight(cat, rows[..|rows| - 1]) + if Attachable(cat, rows[|rows| - 1].identity) then rows[|rows| - 1].count else 0
  }

  /** The rows a device does not cover. */
  function Without(cat: Catalog, rows: seq<Content>, d: Device): seq<Content> {
    if |rows| == 0 then []
    else Without(cat, rows[..|rows| - 1], d) + if DeviceHolds(cat, d, rows[|rows| - 1].identity) then [] else [rows[|rows| - 1]]
  }

  function Remaining(cat: Catalog, rows: seq<Content>, steps: seq<AttachmentStep>): seq<Content> {
    if |steps| == 0 then rows else Without(cat, Remaining(cat, rows, steps[..|steps| - 1]), steps[|steps| - 1].device)
  }

  /** The device that covers most, the smallest id winning ties. */
  ghost predicate IsBest(cat: Catalog, rows: seq<Content>, k: nat, covered: nat) {
    && k < |cat.devices| && covered == CoveredBy(cat, cat.devices[k], rows)
    && (forall j :: 0 <= j < |cat.devices| ==> CoveredBy(cat, cat.devices[j], rows) <= covered)
    && (forall j :: 0 <= j < k ==> CoveredBy(cat, cat.devices[j], rows) < covered)
  }

  ghost predicate GreedyStep(cat: Catalog, rows: seq<Content>, step: AttachmentStep) {
    && step.newlyCovered > 0
    && exists k: nat :: IsBest(cat, rows, k, step.newlyCovered) && cat.devices[k] == step.device
  }

  ghost predicate IsGreedy(cat: Catalog, rows: seq<Content>, steps: seq<AttachmentStep>) {
    forall i :: 0 <= i < |steps| ==> GreedyStep(cat, Remaining(cat, rows, steps[..i]), steps[i])
  }

  // ----- properties of the plan -----

  lemma {:induction false} WithoutKeeps(cat: Catalog, rows: seq<Content>, d: Device, e: Device)
    ensures CoveredBy(cat, e, Without(cat, rows, d)) <= CoveredBy(cat, e, rows)
    ensures CoveredBy(cat, d, Without(cat, rows, d)) == 0
    ensures |Without(cat, rows, d)| <= |rows|
    ensures CoveredBy(cat, d, rows) > 0 ==> |Without(cat, rows, d)| < |rows|
    ensures CoveredBy(cat, e, rows) == 0 ==> CoveredBy(cat, e, Without(cat, rows, d)) == 0
  {
    hide DeviceHolds;
    if |rows| > 0 {
      var init, last := rows[..|rows| - 1], rows[|rows| - 1];
      WithoutKeeps(cat, init, d, e);
      if !DeviceHolds(cat, d, last.identity) {
        assert (Without(cat, init, d) + [last])[..|Without(cat, init, d)|] == Without(cat, init, d);
      } else {
        assert Without(cat, init, d) + [] == Without(cat, init, d);
      }
    }
  }

  lemma {:induction false} WithoutWeights(cat: Catalog, rows: seq<Content>, k: nat)
    requires k < |cat.devices|
    ensures var d := cat.devices[k]; var rest := Without(cat, rows, d);
            && AttachableWeight(cat, rest) + CoveredBy(cat, d, rows) == AttachableWeight(cat, rows)
            && Weight(rest) + CoveredBy(cat, d, rows) == Weight(rows)
  {
    hide DeviceHolds;
    var d := cat.devices[k];
    if |rows| > 0 {
      var init, last := rows[..|rows| - 1], rows[|rows| - 1];
      WithoutWeights(cat, init, k);
      if !DeviceHolds(cat, d, last.identity) {
        assert (Without(cat, init, d) + [last])[..|Without(cat, init, d)|] == Without(cat, init, d);
      } else {
        assert Without(cat, init, d) + [] == Without(cat, init, d);
        assert Attachable(cat, last.identity);
      }
    }
  }

  function TotalCovered(steps: seq<AttachmentStep>): nat {
    if |steps| == 0 then 0 else TotalCovered(steps[..|steps| - 1]) + steps[|steps| - 1].newlyCovered
  }

  lemma {:induction false} GreedyConserves(cat: Catalog, rows: seq<Content>, steps: seq<AttachmentStep>)
    requires IsGreedy(cat, rows, steps)
    ensures TotalCovered(steps) + AttachableWeight(cat, Remaining(cat, rows, steps)) == AttachableWeight(cat, rows)
    ensures TotalCovered(steps) + Weight(Remaining(cat, rows, steps)) == Weight(rows)
  {
    hide DeviceHolds, CoveredBy, Without, AttachableWeight, Weight;
    if |steps| > 0 {
      var init, last := steps[..|steps| - 1], steps[|steps| - 1];
      forall i | 0 <= i < |init| ensures steps[..i] == init[..i] {}
      GreedyConserves(cat, rows, init);
      assert GreedyStep(cat, Remaining(cat, rows, init), last);
      var k: nat :| IsBest(cat, Remaining(cat, rows, init), k, last.newlyCovered) && cat.devices[k] == last.device;
      WithoutWeights(cat, Remaining(cat, rows, init), k);
    }
  }

  function SumCovered(cat: Catalog, devices: seq<Device>, rows: seq<Content>): nat {
    if |devices| == 0 then 0 else SumCovered(cat, devices[..|devices| - 1], rows) + CoveredBy(cat, devices[|devices| - 1], rows)
  }

  predicate CoveredBySome(cat: Catalog, devices: seq<Device>, id: Identity) {
    exists k :: 0 <= k < |devices| && DeviceHolds(cat, devices[k], id)
  }

  lemma {:induction false} SumCoveredSnoc(cat: Catalog, devices: seq<Device>, rows: seq<Content>)
    requires |rows| > 0
    ensures var init, last := rows[..|rows| - 1], rows[|rows| - 1];
            SumCovered(cat, devices, rows) >=
            SumCovered(cat, devices, init) + if CoveredBySome(cat, devices, last.identity) then last.count else 0
    decreases |devices|
  {
    hide DeviceHolds;
    if |devices| > 0 {
      var front := devices[..|devices| - 1];
      SumCoveredSnoc(cat, front, rows);
      var id := rows[|rows| - 1].identity;
      if CoveredBySome(cat, devices, id) && !DeviceHolds(cat, devices[|devices| - 1], id) {
        var k :| 0 <= k < |devices| && DeviceHolds(cat, devices[k], id);
        assert front[k] == devices[k];
      }
    }
  }

  /** Devices that together cover everything attachable cover at least its weight. */
  lemma {:induction false} CoverWeighs(cat: Catalog, devices: seq<Device>, rows: seq<Content>)
    requires forall i :: 0 <= i < |rows| && Attachable(cat, rows[i].identity) ==> CoveredBySome(cat, devices, rows[i].identity)
    ensures AttachableWeight(cat, rows) <= SumCovered(cat, devices, rows)
  {
    hide DeviceHolds, Attachable, CoveredBySome, SumCovered;
    if |rows| > 0 {
      var init, last := rows[..|rows| - 1], rows[|rows| - 1];
      forall i | 0 <= i < |init| ensures init[i] == rows[i] {}
      CoverWeighs(cat, devices, init);
      SumCoveredSnoc(cat, devices, rows);
      assert last == rows[|rows| - 1];
    }
  }

  lemma {:induction false} SumAtMost(cat: Catalog, devices: seq<Device>, rows: seq<Content>, most: nat)
    requires forall k :: 0 <= k < |devices| ==> CoveredBy(cat, devices[k], rows) <= most
    ensures SumCovered(cat, devices, rows) <= most * |devices|
  {
    hide CoveredBy;
    if |devices| > 0 {
      var front := devices[..|devices| - 1];
      forall k | 0 <= k < |front| ensures front[k] == devices[k] {}
      SumAtMost(cat, front, rows, most);
      assert most * |devices| == most * |front| + most;
    }
  }

  /** Each step covers at least a k-th of what is left, for any k devices that would cover it all. */
  lemma GreedyBound(cat: Catalog, rows: seq<Content>, steps: seq<AttachmentStep>, i: nat, devices: seq<Device>)
    requires IsGreedy(cat, rows, steps) && i < |steps|
    requires forall k :: 0 <= k < |devices| ==> devices[k] in cat.devices
    requires forall j :: 0 <= j < |Remaining(cat, rows, steps[..i])| && Attachable(cat, Remaining(cat, rows, steps[..i])[j].identity) ==>
               CoveredBySome(cat, devices, Remaining(cat, rows, steps[..i])[j].identity)
    ensures steps[i].newlyCovered * |devices| >= AttachableWeight(cat, Remaining(cat, rows, steps[..i]))
  {
    hide DeviceHolds, Attachable, CoveredBySome, SumCovered, CoveredBy, AttachableWeight, Remaining;
    var left := Remaining(cat, rows, steps[..i]);
    assert GreedyStep(cat, left, steps[i]);
    CoverWeighs(cat, devices, left);
    forall k | 0 <= k < |devices| ensures CoveredBy(cat, devices[k], left) <= steps[i].newlyCovered {
      var j :| 0 <= j < |cat.devices| && cat.devices[j] == devices[k];
    }
    SumAtMost(cat, devices, left, steps[i].newlyCovered);
  }

  lemma RemainingSnoc(cat: Catalog, rows: seq<Content>, steps: seq<AttachmentStep>, i: nat)
    requires i < |steps|
    ensures Remaining(cat, rows, steps[..i + 1]) == Without(cat, Remaining(cat, rows, steps[..i]), steps[i].device)
  {
    assert steps[..i + 1][..i] == steps[..i];
  }

  /** Later steps never cover more. */
  lemma {:induction false} GreedyNonincreasing(cat: Catalog, rows: seq<Content>, steps: seq<AttachmentStep>, i: nat, j: nat)
    requires IsGreedy(cat, rows, steps) && i <= j < |steps|
    ensures steps[j].newlyCovered <= steps[i].newlyCovered
    decreases j - i
  {
    hide DeviceHolds, CoveredBy, Without, Remaining;
    if i < j {
      GreedyNonincreasing(cat, rows, steps, i, j - 1);
      var left := Remaining(cat, rows, steps[..j - 1]);
      assert GreedyStep(cat, left, steps[j - 1]) && GreedyStep(cat, Remaining(cat, rows, steps[..j]), steps[j]);
      RemainingSnoc(cat, rows, steps, j - 1);
      WithoutKeeps(cat, left, steps[j - 1].device, steps[j].device);
    }
  }

  lemma {:induction false} CoveredGone(cat: Catalog, rows: seq<Content>, steps: seq<AttachmentStep>, i: nat, j: nat)
    requires i < j <= |steps|
    ensures CoveredBy(cat, steps[i].device, Remaining(cat, rows, steps[..j])) == 0
    decreases j - i
  {
    hide DeviceHolds, CoveredBy, Without, Remaining;
    RemainingSnoc(cat, rows, steps, j - 1);
    WithoutKeeps(cat, Remaining(cat, rows, steps[..j - 1]), steps[j - 1].device, steps[i].device);
    if i < j - 1 {
      CoveredGone(cat, rows, steps, i, j - 1);
    }
  }

  /** No device appears twice. */
  lemma GreedyDistinct(cat: Catalog, rows: seq<Content>, steps: seq<AttachmentStep>, i: nat, j: nat)
    requires IsGreedy(cat, rows, steps) && i < j < |steps|
    ensures steps[i].device != steps[j].device
  {
    hide DeviceHolds, CoveredBy, Without, Remaining;
    CoveredGone(cat, rows, steps, i, j);
    assert GreedyStep(cat, Remaining(cat, rows, steps[..j]), steps[j]);
  }

  lemma {:induction false} NothingLeft(cat: Catalog, rows: seq<Content>)
    requires forall k :: 0 <= k < |cat.devices| ==> CoveredBy(cat, cat.devices[k], rows) == 0
    ensures AttachableWeight(cat, rows) == 0
  {
    hide DeviceHolds;
    if |rows| > 0 {
      NothingLeft(cat, rows[..|rows| - 1]);
      var last := rows[|rows| - 1];
      if Attachable(cat, last.identity) {
        var k :| 0 <= k < |cat.devices| && DeviceHolds(cat, cat.devices[k], last.identity);
        assert CoveredBy(cat, cat.devices[k], rows) == 0;
      }
    }
  }

  // ----- the content table -----

  /** Counting one more file: its row grows, or a new row appears; two identities under one key conflict. */
  function AddFile(rows: seq<Content>, id: Identity): Result<seq<Content>, AppError> {
    if |rows| == 0 then Ok([Content(id, 1, false, false)])
    else
      var last := rows[|rows| - 1];
      if last.identity == id then Ok(rows[..|rows| - 1] + [last.(count := last.count + 1)])
      else if last.identity.key == id.key then Err(SqliteConflict)
      else
        var before := AddFile(rows[..|rows| - 1], id);
        if before.Err? then before else Ok(before.value + [last])
  }

  /** `INSERT … SELECT … GROUP BY` over the requested files of the collection. */
  function Grouped(cat: Catalog, collection: string, ids: seq<string>): Result<seq<Content>, AppError> {
    if |ids| == 0 then Ok([])
    else
      var before, id := Grouped(cat, collection, ids[..|ids| - 1]), ids[|ids| - 1];
      if before.Err? || !Wanted(cat, collection, id) then before else AddFile(before.value, IdentityOf(cat.files[id]))
  }

  lemma {:induction false} AddFileWeights(cat: Catalog, rows: seq<Content>, id: Identity, s: FileState)
    requires AddFile(rows, id).Ok?
    ensures var rows' := AddFile(rows, id).value;
            && StateWeight(cat, rows', s) == StateWeight(cat, rows, s) + (if IdentityState(cat, id) == s then 1 else 0)
            && Weight(rows') == Weight(rows) + 1
            && |rows'| > 0
  {
    hide Accessible, Attachable;
    var rows' := AddFile(rows, id).value;
    if |rows| > 0 {
      var init, last := rows[..|rows| - 1], rows[|rows| - 1];
      if last.identity == id {
        assert rows'[..|rows'| - 1] == init;
      } else {
        AddFileWeights(cat, init, id, s);
        assert rows'[..|rows'| - 1] == AddFile(init, id).value;
      }
    } else {
      assert rows'[..0] == [];
    }
  }

  /** The table's weight in each state is the number of requested files in that state. */
  lemma {:induction false} GroupedWeights(cat: Catalog, collection: string, ids: seq<string>, s: FileState)
    requires Grouped(cat, collection, ids).Ok? && (s.IsAccessible? || s.AttachmentRequired? || s.NoKnownCopy?)
    ensures StateWeight(cat, Grouped(cat, collection, ids).value, s) == CountState(cat, collection, ids, s)
  {
    hide Accessible, Attachable, AddFile, StateWeight;
    if |ids| > 0 {
      var init, id := ids[..|ids| - 1], ids[|ids| - 1];
      GroupedWeights(cat, collection, init, s);
      if Wanted(cat, collection, id) {
        AddFileWeights(cat, Grouped(cat, collection, init).value, IdentityOf(cat.files[id]), s);
      }
    } else {
      EmptyTable(cat, s);
    }
  }

  lemma EmptyTable(cat: Catalog, s: FileState)
    ensures StateWeight(cat, [], s) == 0
  {
  }

  predicate Clash(cat: Catalog, collection: string, a: string, b: string) {
    && Wanted(cat, collection, a) && Wanted(cat, collection, b)
    && IdentityOf(cat.files[a]).key == IdentityOf(cat.files[b]).key && IdentityOf(cat.files[a]) != IdentityOf(cat.files[b])
  }

  predicate IsRequested(cat: Catalog, collection: string, ids: seq<string>, id: Identity) {
    exists i :: 0 <= i < |ids| && Wanted(cat, collection, ids[i]) && IdentityOf(cat.files[ids[i]]) == id
  }

  /** The rows are exactly the identities of the requested files. */
  ghost predicate RowsOf(cat: Catalog, collection: string, ids: seq<string>, rows: seq<Content>) {
    && (forall k :: 0 <= k < |rows| ==> IsRequested(cat, collection, ids, rows[k].identity))
    && (forall i :: 0 <= i < |ids| && Wanted(cat, collection, ids[i]) ==> HasRow(rows, IdentityOf(cat.files[ids[i]])))
    && (forall j, k :: 0 <= j < k < |rows| ==> rows[j].identity.key != rows[k].identity.key)
  }

  predicate HasRow(rows: seq<Content>, id: Identity) { exists k :: 0 <= k < |rows| && rows[k].identity == id }

  predicate HasKey(rows: seq<Content>, id: Identity) {
    exists k :: 0 <= k < |rows| && rows[k].identity.key == id.key && rows[k].identity != id
  }

  lemma {:induction false} AddFileRows(rows: seq<Content>, id: Identity)
    requires forall j, k :: 0 <= j < k < |rows| ==> rows[j].identity.key != rows[k].identity.key
    ensures AddFile(rows, id).Err? <==> HasKey(rows, id)
    ensures AddFile(rows, id).Ok? ==>
              var rows' := AddFile(rows, id).value;
              && HasRow(rows', id) && |rows'| >= |rows|
              && (forall k :: 0 <= k < |rows| ==> HasRow(rows', rows[k].identity))
              && (forall k :: 0 <= k < |rows'| ==> rows'[k].identity == id || HasRow(rows, rows'[k].identity))
              && (forall j, k :: 0 <= j < k < |rows'| ==> rows'[j].identity.key != rows'[k].identity.key)
  {
    if |rows| == 0 {
      assert AddFile(rows, id).value[0].identity == id;
    } else {
      var init, last := rows[..|rows| - 1], rows[|rows| - 1];
      if last.identity == id {
        var rows' := AddFile(rows, id).value;
        forall k | 0 <= k < |rows| ensures rows'[k].identity == rows[k].identity && HasRow(rows', rows[k].identity) {}
      } else if last.identity.key != id.key {
        forall k | 0 <= k < |init| ensures init[k] == rows[k] {}
        AddFileRows(init, id);
        if AddFile(init, id).Ok? {
          AddedRows(init, last, AddFile(init, id).value, id);
          assert rows == init + [last];
        } else {
          var k :| 0 <= k < |init| && init[k].identity.key == id.key && init[k].identity != id;
          assert rows[k] == init[k];
        }
      }
    }
  }

  lemma AddedRows(init: seq<Content>, last: Content, grown: seq<Content>, id: Identity)
    requires HasRow(grown, id) && last.identity.key != id.key && |grown| >= |init|
    requires forall k :: 0 <= k < |init| ==> HasRow(grown, init[k].identity) && init[k].identity.key != last.identity.key
    requires forall k :: 0 <= k < |grown| ==> grown[k].identity == id || HasRow(init, grown[k].identity)
    requires forall j, k :: 0 <= j < k < |grown| ==> grown[j].identity.key != grown[k].identity.key
    requires !HasKey(init, id)
    ensures var rows, rows' := init + [last], grown + [last];
            && HasRow(rows', id) && !HasKey(rows, id)
            && (forall k :: 0 <= k < |rows| ==> HasRow(rows', rows[k].identity))
            && (forall k :: 0 <= k < |rows'| ==> rows'[k].identity == id || HasRow(rows, rows'[k].identity))
            && (forall j, k :: 0 <= j < k < |rows'| ==> rows'[j].identity.key != rows'[k].identity.key)
  {
    var rows, rows' := init + [last], grown + [last];
    forall k | 0 <= k < |grown| ensures rows'[k] == grown[k] {}
    forall k | 0 <= k < |init| ensures rows[k] == init[k] {}
    assert rows'[|grown|] == last && rows[|init|] == last;
    var m :| 0 <= m < |grown| && grown[m].identity == id;
    assert rows'[m].identity == id;
    forall k | 0 <= k < |rows| ensures HasRow(rows', rows[k].identity) {
      if k < |init| {
        var j :| 0 <= j < |grown| && grown[j].identity == init[k].identity;
        assert rows'[j].identity == rows[k].identity;
      }
    }
    forall k | 0 <= k < |grown| ensures grown[k].identity == id || HasRow(rows, grown[k].identity) {
      if grown[k].identity != id {
        var j :| 0 <= j < |init| && init[j].identity == grown[k].identity;
        assert rows[j].identity == grown[k].identity;
      }
    }
    forall k | 0 <= k < |grown| ensures grown[k].identity.key != last.identity.key {
      if grown[k].identity != id {
        var j :| 0 <= j < |init| && init[j].identity == grown[k].identity;
      }
    }
  }

  /** Grouping fails exactly when two requested files share an object but not their external identity. */
  lemma {:induction false} GroupedExactly(cat: Catalog, collection: string, ids: seq<string>)
    ensures Grouped(cat, collection, ids).Err? <==>
            exists i, j :: 0 <= i < |ids| && 0 <= j < |ids| && Clash(cat, collection, ids[i], ids[j])
    ensures Grouped(cat, collection, ids).Ok? ==> RowsOf(cat, collection, ids, Grouped(cat, collection, ids).value)
  {
    hide AddFile;
    if |ids| > 0 {
      var init, id := ids[..|ids| - 1], ids[|ids| - 1];
      GroupedExactly(cat, collection, init);
      forall k | 0 <= k < |init| ensures init[k] == ids[k] {}
      var before := Grouped(cat, collection, init);
      if before.Err? {
        var i, j :| 0 <= i < |init| && 0 <= j < |init| && Clash(cat, collection, init[i], init[j]);
        assert Clash(cat, collection, ids[i], ids[j]);
      } else if Wanted(cat, collection, id) {
        AddFileRows(before.value, IdentityOf(cat.files[id]));
        GroupedStep(cat, collection, ids, before.value);
      } else {
        SameRows(cat, collection, ids, before.value);
      }
    }
  }

  const SAMPLE_CATALOG := Catalog(
    map["a" := FileRef("a", "docs", true, Some("object"), Some("key_1")), "b" := FileRef("b", "docs", true, Some("object"), Some("key_2"))],
    [], map[], [], {})

  /** Either of two files with one content under two annex keys can be requested; both together cannot. */
  lemma SampleClash()
    ensures Grouped(SAMPLE_CATALOG, "docs", ["a"]).Ok? && Grouped(SAMPLE_CATALOG, "docs", ["b"]).Ok?
    ensures Grouped(SAMPLE_CATALOG, "docs", ["a", "b"]).Err?
  {
    hide Grouped;
    GroupedExactly(SAMPLE_CATALOG, "docs", ["a"]);
    GroupedExactly(SAMPLE_CATALOG, "docs", ["b"]);
    GroupedExactly(SAMPLE_CATALOG, "docs", ["a", "b"]);
    var ids := ["a", "b"];
    assert Clash(SAMPLE_CATALOG, "docs", ids[0], ids[1]);
  }

  lemma SameRows(cat: Catalog, collection: string, ids: seq<string>, rows: seq<Content>)
    requires |ids| > 0 && RowsOf(cat, collection, ids[..|ids| - 1], rows) && !Wanted(cat, collection, ids[|ids| - 1])
    requires forall i, j :: 0 <= i < |ids| - 1 && 0 <= j < |ids| - 1 ==> !Clash(cat, collection, ids[i], ids[j])
    ensures RowsOf(cat, collection, ids, rows)
    ensures forall i, j :: 0 <= i < |ids| && 0 <= j < |ids| ==> !Clash(cat, collection, ids[i], ids[j])
  {
    var init := ids[..|ids| - 1];
    forall k | 0 <= k < |rows| ensures IsRequested(cat, collection, ids, rows[k].identity) {
      assert IsRequested(cat, collection, init, rows[k].identity);
      var i :| 0 <= i < |init| && Wanted(cat, collection, init[i]) && IdentityOf(cat.files[init[i]]) == rows[k].identity;
      assert ids[i] == init[i] && Wanted(cat, collection, ids[i]) && IdentityOf(cat.files[ids[i]]) == rows[k].identity;
    }
    forall i | 0 <= i < |ids| && Wanted(cat, collection, ids[i]) ensures HasRow(rows, IdentityOf(cat.files[ids[i]])) {
      assert init[i] == ids[i];
    }
  }

  lemma GroupedStep(cat: Catalog, collection: string, ids: seq<string>, rows: seq<Content>)
    requires |ids| > 0 && RowsOf(cat, collection, ids[..|ids| - 1], rows) && Wanted(cat, collection, ids[|ids| - 1])
    requires forall i, j :: 0 <= i < |ids| - 1 && 0 <= j < |ids| - 1 ==> !Clash(cat, collection, ids[i], ids[j])
    requires var id := IdentityOf(cat.files[ids[|ids| - 1]]);
             && (AddFile(rows, id).Err? <==> HasKey(rows, id))
             && (AddFile(rows, id).Ok? ==>
                   var rows' := AddFile(rows, id).value;
                   && HasRow(rows', id)
                   && (forall k :: 0 <= k < |rows| ==> HasRow(rows', rows[k].identity))
                   && (forall k :: 0 <= k < |rows'| ==> rows'[k].identity == id || HasRow(rows, rows'[k].identity))
                   && (forall j, k :: 0 <= j < k < |rows'| ==> rows'[j].identity.key != rows'[k].identity.key))
    ensures var id := IdentityOf(cat.files[ids[|ids| - 1]]);
            && (AddFile(rows, id).Err? <==>
                  exists i, j :: 0 <= i < |ids| && 0 <= j < |ids| && Clash(cat, collection, ids[i], ids[j]))
            && (AddFile(rows, id).Ok? ==> RowsOf(cat, collection, ids, AddFile(rows, id).value))
  {
    hide AddFile, IdentityOf;
    var n := |ids| - 1;
    var init, id := ids[..n], IdentityOf(cat.files[ids[n]]);
    forall k | 0 <= k < n ensures init[k] == ids[k] {}
    if HasKey(rows, id) {
      var k :| 0 <= k < |rows| && rows[k].identity.key == id.key && rows[k].identity != id;
      var i :| 0 <= i < n && Wanted(cat, collection, init[i]) && IdentityOf(cat.files[init[i]]) == rows[k].identity;
      assert Clash(cat, collection, ids[i], ids[n]);
    } else {
      forall i | 0 <= i < n ensures !Clash(cat, collection, ids[i], ids[n]) && !Clash(cat, collection, ids[n], ids[i]) {
        if Wanted(cat, collection, ids[i]) {
          assert HasRow(rows, IdentityOf(cat.files[init[i]]));
        }
      }
      assert !Clash(cat, collection, ids[n], ids[n]);
      var rows' := AddFile(rows, id).value;
      forall k | 0 <= k < |rows'| ensures IsRequested(cat, collection, ids, rows'[k].identity) {
        if rows'[k].identity == id {
          assert Wanted(cat, collection, ids[n]);
        } else {
          var j :| 0 <= j < |rows| && rows[j].identity == rows'[k].identity;
          var i :| 0 <= i < n && Wanted(cat, collection, init[i]) && IdentityOf(cat.files[init[i]]) == rows[j].identity;
          assert ids[i] == init[i];
        }
      }
      forall i | 0 <= i <= n && Wanted(cat, collection, ids[i]) ensures HasRow(rows', IdentityOf(cat.files[ids[i]])) {
        if i < n {
          assert HasRow(rows, IdentityOf(cat.files[init[i]]));
          var k :| 0 <= k < |rows| && rows[k].identity == IdentityOf(cat.files[ids[i]]);
        }
      }
    }
  }

  // ----- the request session and its temporary tables -----

  /** A parsed request line: nothing on it, or an id. */
  datatype RequestLine = Blank | Request(id: string, wellFormed: bool)

  function Once(ids: seq<string>): seq<string> {
    if |ids| == 0 then []
    else
      var before := Once(ids[..|ids| - 1]);
      if ids[|ids| - 1] in before then before else before + [ids[|ids| - 1]]
  }

  function IdsOf(lines: seq<RequestLine>): seq<string> {
    if |lines| == 0 then []
    else IdsOf(lines[..|lines| - 1]) + if lines[|lines| - 1].Request? then [lines[|lines| - 1].id] else []
  }

  predicate Distinct(ids: seq<string>) { forall i, j :: 0 <= i < j < |ids| ==> ids[i] != ids[j] }

  /** Every requested id once, at the place it first appeared. */
  lemma {:induction false} OnceExact(ids: seq<string>)
    ensures Distinct(Once(ids)) && forall id :: id in Once(ids) <==> id in ids
    ensures |ids| > 0 ==> |Once(ids)| > 0
  {
    if |ids| > 0 {
      OnceExact(ids[..|ids| - 1]);
      assert ids == ids[..|ids| - 1] + [ids[|ids| - 1]];
      if ids[|ids| - 1] in Once(ids[..|ids| - 1]) { assert |Once(ids)| > 0; }
    }
  }

  /** Each id keeps the place at which it was first requested: later requests only add at the end. */
  lemma {:induction false} OncePrefix(ids: seq<string>, n: nat)
    requires n <= |ids|
    ensures Once(ids[..n]) <= Once(ids)
    decreases |ids|
  {
    if n < |ids| {
      var init := ids[..|ids| - 1];
      assert init[..n] == ids[..n];
      OncePrefix(init, n);
    } else {
      assert ids[..n] == ids;
    }
  }

  function Flagged(cat: Catalog, rows: seq<Content>): seq<Content> {
    seq(|rows|, i requires 0 <= i < |rows| =>
      rows[i].(accessible := Accessible(cat, rows[i].identity), attachable := Attachable(cat, rows[i].identity)))
  }

  /** Rows that no copy on this host serves. */
  function Uncovered(rows: seq<Content>): seq<Content> {
    if |rows| == 0 then []
    else Uncovered(rows[..|rows| - 1]) + if rows[|rows| - 1].accessible then [] else [rows[|rows| - 1]]
  }

  function SummaryOf(cat: Catalog, collection: string, ids: seq<string>): AccessSummary {
    AccessSummary(CountState(cat, collection, ids, IsAccessible), CountState(cat, collection, ids, AttachmentRequired),
                  CountState(cat, collection, ids, NoKnownCopy), CountState(cat, collection, ids, NotFound),
                  CountState(cat, collection, ids, WrongCollection), CountState(cat, collection, ids, Removed))
  }

  class AccessSession {
    const catalog: Catalog
    const collection: string
    var requested: seq<string>
    var content: seq<Content>

    constructor (catalog: Catalog, collection: string)
      ensures this.catalog == catalog && this.collection == collection
    {
      this.catalog, this.collection, requested, content := catalog, collection, [], [];
    }

    /** The content table belongs to the request. */
    ghost predicate Installed()
      reads this
    {
      && Grouped(catalog, collection, requested).Ok?
      && content == Flagged(catalog, Grouped(catalog, collection, requested).value)
      && RowsOf(catalog, collection, requested, content)
    }

    /** `load_request`: repeated ids are ignored. */
    method LoadRequest(lines: seq<RequestLine>) returns (r: Result<nat, AppError>)
      modifies this`requested
      ensures r.Ok? ==> requested == Once(IdsOf(lines)) && r.value == |requested| > 0
      ensures r.Err? <==> (exists i :: 0 <= i < |lines| && lines[i].Request? && !lines[i].wellFormed) || |IdsOf(lines)| == 0
    {
      requested := [];
      assert lines[..0] == [];
      for i := 0 to |lines|
        invariant requested == Once(IdsOf(lines[..i]))
        invariant forall k :: 0 <= k < i && lines[k].Request? ==> lines[k].wellFormed
      {
        assert lines[..i + 1][..i] == lines[..i];
        match lines[i] {
          case Blank => assert IdsOf(lines[..i + 1]) == IdsOf(lines[..i]);
          case Request(id, wellFormed) =>
            if !wellFormed {
              return Err(InvalidRequest);
            }
            var ids := IdsOf(lines[..i]);
            assert IdsOf(lines[..i + 1]) == ids + [id] && (ids + [id])[..|ids|] == ids;
            if id !in requested {
              requested := requested + [id];
            }
        }
      }
      assert lines[..|lines|] == lines;
      OnceExact(IdsOf(lines));
      if |requested| == 0 {
        return Err(EmptyRequest);
      }
      return Ok(|requested|);
    }

    /** `install_content_access`: fails exactly on two identities under one object. */
    method InstallContentAccess() returns (r: Result<(), AppError>)
      modifies this`content
      ensures r.Ok? ==> Installed()
      ensures r.Err? <==> exists i, j :: 0 <= i < |requested| && 0 <= j < |requested|
                                         && Clash(catalog, collection, requested[i], requested[j])
    {
      hide Grouped, RowsOf, Clash, Accessible, Attachable;
      GroupedExactly(catalog, collection, requested);
      var grouped := Grouped(catalog, collection, requested);
      if grouped.Err? {
        return Err(grouped.error);
      }
      content := grouped.value;
      for i := 0 to |grouped.value|
        invariant |content| == |grouped.value|
        invariant forall k :: i <= k < |content| ==> content[k] == grouped.value[k]
        invariant forall k :: 0 <= k < i ==> content[k] == Flagged(catalog, grouped.value)[k]
      {
        var row := content[i];
        content := content[i := row.(accessible := Accessible(catalog, row.identity), attachable := Attachable(catalog, row.identity))];
      }
      FlaggedRows(catalog, collection, requested, grouped.value);
      assert content == Flagged(catalog, grouped.value);
      return Ok(());
    }

    /** The row of one content, as the joins on `content_key` find it. */
    method FindRow(id: Identity) returns (row: Option<Content>)
      ensures row.Some? ==> row.value in content && row.value.identity.key == id.key
      ensures row.None? ==> forall k :: 0 <= k < |content| ==> content[k].identity.key != id.key
    {
      for i := 0 to |content|
        invariant forall k :: 0 <= k < i ==> content[k].identity.key != id.key
      {
        if content[i].identity.key == id.key {
          return Some(content[i]);
        }
      }
      return None;
    }

    /** The state shown for one requested file. */
    method FileAccess(id: string) returns (s: FileState)
      requires Installed() && id in requested
      ensures s == StateOf(catalog, collection, id)
    {
      hide Grouped, Accessible, Attachable;
      if id !in catalog.files {
        return NotFound;
      }
      var file := catalog.files[id];
      if file.collectionId != collection {
        return WrongCollection;
      }
      if !file.active {
        return Removed;
      }
      var row := FindRow(IdentityOf(file));
      RowOfFile(id);
      return if row.Some? then ContentState(row.value.accessible, row.value.attachable) else NoKnownCopy;
    }

    lemma RowOfFile(id: string)
      requires Installed() && id in requested && Wanted(catalog, collection, id)
      ensures exists k :: 0 <= k < |content| && content[k].identity == IdentityOf(catalog.files[id])
      ensures forall row :: row in content && row.identity.key == IdentityOf(catalog.files[id]).key ==>
                row.identity == IdentityOf(catalog.files[id])
                && row.accessible == Accessible(catalog, row.identity) && row.attachable == Attachable(catalog, row.identity)
    {
      hide Grouped, Accessible, Attachable;
      var i :| 0 <= i < |requested| && requested[i] == id;
      assert HasRow(content, IdentityOf(catalog.files[requested[i]]));
      var m :| 0 <= m < |content| && content[m].identity == IdentityOf(catalog.files[id]);
      forall row | row in content && row.identity.key == IdentityOf(catalog.files[id]).key
        ensures row.identity == IdentityOf(catalog.files[id])
                && row.accessible == Accessible(catalog, row.identity) && row.attachable == Attachable(catalog, row.identity)
      {
        var k :| 0 <= k < |content| && content[k] == row;
        assert k == m;
      }
    }

    /** `access_page`: the states of the requests after `after`, at most `limit + 1` of them. */
    method AccessPage(after: nat, limit: nat) returns (page: seq<FileState>)
      requires Installed() && after <= |requested|
      ensures var end := if after + limit + 1 <= |requested| then after + limit + 1 else |requested|;
              |page| == end - after &&
              forall k :: 0 <= k < |page| ==> page[k] == StateOf(catalog, collection, requested[after + k])
    {
      hide Installed, StateOf;
      page := [];
      var end := if after + limit + 1 <= |requested| then after + limit + 1 else |requested|;
      for i := after to end
        invariant |page| == i - after
        invariant forall k :: 0 <= k < |page| ==> page[k] == StateOf(catalog, collection, requested[after + k])
      {
        var s := FileAccess(requested[i]);
        page := page + [s];
      }
    }

    /** `access_summary`: exactly the counts of the states the pages show. */
    method Summarize() returns (summary: AccessSummary)
      requires Installed()
      ensures summary == SummaryOf(catalog, collection, requested)
      ensures summary.accessible + summary.attachmentRequired + summary.noKnownCopy + summary.notFound
              + summary.wrongCollection + summary.removed == |requested|
    {
      hide Installed, StateOf;
      summary := AccessSummary(0, 0, 0, 0, 0, 0);
      assert requested[..0] == [];
      for i := 0 to |requested|
        invariant summary == SummaryOf(catalog, collection, requested[..i])
        invariant summary.accessible + summary.attachmentRequired + summary.noKnownCopy + summary.notFound
                  + summary.wrongCollection + summary.removed == i
      {
        assert requested[..i + 1][..i] == requested[..i];
        var s := FileAccess(requested[i]);
        match s {
          case IsAccessible => summary := summary.(accessible := summary.accessible + 1);
          case AttachmentRequired => summary := summary.(attachmentRequired := summary.attachmentRequired + 1);
          case NoKnownCopy => summary := summary.(noKnownCopy := summary.noKnownCopy + 1);
          case NotFound => summary := summary.(notFound := summary.notFound + 1);
          case WrongCollection => summary := summary.(wrongCollection := summary.wrongCollection + 1);
          case Removed => summary := summary.(removed := summary.removed + 1);
        }
      }
      assert requested[..|requested|] == requested;
    }

    /** `attachment_plan`: take the device covering most of what is left until none covers anything. */
    method MakePlan() returns (plan: Plan)
      requires Installed()
      ensures IsGreedy(catalog, Uncovered(content), plan.steps)
      ensures TotalCovered(plan.steps) == SummaryOf(catalog, collection, requested).attachmentRequired
      ensures plan.noAttachableCopyCount == SummaryOf(catalog, collection, requested).noKnownCopy
    {
      hide CoveredBy, Without, Remaining, Uncovered, Weight, AttachableWeight, IsGreedy, StateOf, Installed, CountState, TotalCovered;
      var uncovered := Uncovered(content);
      ghost var rows := uncovered;
      var steps: seq<AttachmentStep> := [];
      NoSteps(catalog, rows);
      while true
        invariant uncovered == Remaining(catalog, rows, steps) && IsGreedy(catalog, rows, steps)
        decreases |uncovered|
      {
        var best := BestDevice(uncovered);
        if best.None? {
          break;
        }
        var step := AttachmentStep(catalog.devices[best.value.0], best.value.1);
        WithoutKeeps(catalog, uncovered, step.device, step.device);
        StepTaken(catalog, rows, steps, step, best.value.0);
        uncovered := Without(catalog, uncovered, step.device);
        steps := steps + [step];
      }
      GreedyConserves(catalog, rows, steps);
      NothingLeft(catalog, uncovered);
      UncoveredStates();
      var left := TotalCount(uncovered);
      return Plan(steps, left);
    }

    method TotalCount(rows: seq<Content>) returns (total: nat)
      ensures total == Weight(rows)
    {
      total := 0;
      assert rows[..0] == [];
      for i := 0 to |rows|
        invariant total == Weight(rows[..i])
      {
        assert rows[..i + 1][..i] == rows[..i];
        total := total + rows[i].count;
      }
      assert rows[..|rows|] == rows;
    }

    method CountCovered(d: Device, rows: seq<Content>) returns (covered: nat)
      ensures covered == CoveredBy(catalog, d, rows)
    {
      hide DeviceHolds;
      covered := 0;
      assert rows[..0] == [];
      for i := 0 to |rows|
        invariant covered == CoveredBy(catalog, d, rows[..i])
      {
        assert rows[..i + 1][..i] == rows[..i];
        if DeviceHolds(catalog, d, rows[i].identity) {
          covered := covered + rows[i].count;
        }
      }
      assert rows[..|rows|] == rows;
    }

    /** `ORDER BY covered DESC, device_id LIMIT 1` over the devices that cover anything. */
    method BestDevice(rows: seq<Content>) returns (best: Option<(nat, nat)>)
      ensures best.None? ==> forall k :: 0 <= k < |catalog.devices| ==> CoveredBy(catalog, catalog.devices[k], rows) == 0
      ensures best.Some? ==> best.value.1 > 0 && IsBest(catalog, rows, best.value.0, best.value.1)
    {
      hide CoveredBy;
      best := None;
      for i := 0 to |catalog.devices|
        invariant best.None? ==> forall k :: 0 <= k < i ==> CoveredBy(catalog, catalog.devices[k], rows) == 0
        invariant best.Some? ==>
                    && best.value.0 < i && best.value.1 == CoveredBy(catalog, catalog.devices[best.value.0], rows) > 0
                    && (forall k :: 0 <= k < i ==> CoveredBy(catalog, catalog.devices[k], rows) <= best.value.1)
                    && (forall k :: 0 <= k < best.value.0 ==> CoveredBy(catalog, catalog.devices[k], rows) < best.value.1)
      {
        var covered := CountCovered(catalog.devices[i], rows);
        if covered > 0 && (best.None? || covered > best.value.1) {
          best := Some((i, covered));
        }
      }
    }

    /** What is uncovered and attachable, and what is not, in files. */
    lemma UncoveredStates()
      requires Installed()
      ensures var rows := Uncovered(content);
              && AttachableWeight(catalog, rows) == CountState(catalog, collection, requested, AttachmentRequired)
              && Weight(rows) == CountState(catalog, collection, requested, AttachmentRequired)
                                 + CountState(catalog, collection, requested, NoKnownCopy)
    {
      hide Grouped, RowsOf, CountState, StateWeight, Uncovered, Weight, AttachableWeight;
      var rows := Grouped(catalog, collection, requested).value;
      GroupedWeights(catalog, collection, requested, AttachmentRequired);
      GroupedWeights(catalog, collection, requested, NoKnownCopy);
      UncoveredWeights(catalog, rows);
    }
  }

  lemma FlaggedRows(cat: Catalog, collection: string, ids: seq<string>, rows: seq<Content>)
    requires RowsOf(cat, collection, ids, rows)
    ensures RowsOf(cat, collection, ids, Flagged(cat, rows))
  {
    hide Accessible, Attachable, IsRequested;
    var flagged := Flagged(cat, rows);
    forall k | 0 <= k < |rows| ensures flagged[k].identity == rows[k].identity {}
    forall i | 0 <= i < |ids| && Wanted(cat, collection, ids[i]) ensures HasRow(flagged, IdentityOf(cat.files[ids[i]])) {
      assert HasRow(rows, IdentityOf(cat.files[ids[i]]));
      var k :| 0 <= k < |rows| && rows[k].identity == IdentityOf(cat.files[ids[i]]);
      assert flagged[k].identity == rows[k].identity;
    }
  }

  lemma {:induction false} UncoveredWeights(cat: Catalog, rows: seq<Content>)
    ensures var left := Uncovered(Flagged(cat, rows));
            && AttachableWeight(cat, left) == StateWeight(cat, rows, AttachmentRequired)
            && Weight(left) == StateWeight(cat, rows, AttachmentRequired) + StateWeight(cat, rows, NoKnownCopy)
  {
    hide Accessible, Attachable, Uncovered, Flagged, Weight, AttachableWeight;
    if |rows| > 0 {
      var init, last := rows[..|rows| - 1], rows[|rows| - 1];
      UncoveredWeights(cat, init);
      UncoveredSnoc(cat, rows);
      WeightsSnoc(cat, Uncovered(Flagged(cat, init)),
                  last.(accessible := Accessible(cat, last.identity), attachable := Attachable(cat, last.identity)));
    } else {
      NothingUncovered(cat, rows);
    }
  }

  lemma NothingUncovered(cat: Catalog, rows: seq<Content>)
    requires |rows| == 0
    ensures AttachableWeight(cat, Uncovered(Flagged(cat, rows))) == 0 && Weight(Uncovered(Flagged(cat, rows))) == 0
  {
  }

  lemma UncoveredSnoc(cat: Catalog, rows: seq<Content>)
    requires |rows| > 0
    ensures var init, last := rows[..|rows| - 1], rows[|rows| - 1];
            var left := Uncovered(Flagged(cat, init));
            Uncovered(Flagged(cat, rows)) ==
            if Accessible(cat, last.identity) then left
            else left + [last.(accessible := Accessible(cat, last.identity), attachable := Attachable(cat, last.identity))]
  {
    hide Accessible, Attachable;
    var flagged := Flagged(cat, rows);
    var left := Uncovered(Flagged(cat, rows[..|rows| - 1]));
    assert flagged[..|flagged| - 1] == Flagged(cat, rows[..|rows| - 1]);
    assert left + [] == left;
  }

  lemma WeightsSnoc(cat: Catalog, rows: seq<Content>, x: Content)
    ensures Weight(rows + [x]) == Weight(rows) + x.count
    ensures AttachableWeight(cat, rows + [x]) == AttachableWeight(cat, rows) + if Attachable(cat, x.identity) then x.count else 0
  {
    hide Attachable;
    assert (rows + [x])[..|rows|] == rows;
  }

  lemma NoSteps(cat: Catalog, rows: seq<Content>)
    ensures IsGreedy(cat, rows, []) && Remaining(cat, rows, []) == rows
  {
  }

  lemma StepTaken(cat: Catalog, rows: seq<Content>, steps: seq<AttachmentStep>, step: AttachmentStep, k: nat)
    requires IsGreedy(cat, rows, steps) && step.newlyCovered > 0
    requires IsBest(cat, Remaining(cat, rows, steps), k, step.newlyCovered) && step.device == cat.devices[k]
    ensures IsGreedy(cat, rows, steps + [step])
    ensures Remaining(cat, rows, steps + [step]) == Without(cat, Remaining(cat, rows, steps), step.device)
    ensures step.newlyCovered == CoveredBy(cat, step.device, Remaining(cat, rows, steps))
  {
    hide CoveredBy, Without;
    var all := steps + [step];
    assert all[..|steps|] == steps;
    forall i | 0 <= i < |all| ensures GreedyStep(cat, Remaining(cat, rows, all[..i]), all[i]) {
      if i < |steps| {
        assert all[..i] == steps[..i];
        assert GreedyStep(cat, Remaining(cat, rows, steps[..i]), steps[i]);
      } else {
        assert GreedyStep(cat, Remaining(cat, rows, steps), step);
      }
    }
  }
}
