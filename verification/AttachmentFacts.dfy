/** What a file's state, the summary and the plan mean, said of files, claims, locations and devices alone. */
module AttachmentFacts {
  import opened Wrappers
  import opened AttachmentPlan

  // ----- which claims count -----

  /** The claim is for the file's content: its object, or its annex key while the object is not known. */
  ghost predicate Serves(c: Claim, f: FileRef) {
    || (f.objectId.Some? && c.objectId == f.objectId)
    || (f.objectId.None? && f.externalId.Some? && c.externalId == f.externalId)
  }

  /** The copy is there, at an active location on that active device. */
  ghost predicate IsOn(cat: Catalog, c: Claim, d: Device) {
    && c.state == "present" && d.status == "active"
    && c.locationId in cat.locations
    && var place := cat.locations[c.locationId]; place.status == "active" && place.deviceId == Some(d.deviceId)
  }

  /** The copy can be had by attaching a device. */
  ghost predicate CanAttach(cat: Catalog, c: Claim) { exists d :: d in cat.devices && IsOn(cat, c, d) }

  /** The archive root of the copy is accessible on this host. */
  ghost predicate RootAccessible(cat: Catalog, c: Claim) {
    && c.locationId in cat.locations
    && var root := cat.locations[c.locationId].archiveRootId; root.Some? && root.value in cat.accessibleRoots
  }

  ghost predicate IsWanted(cat: Catalog, collection: string, id: string) {
    id in cat.files && cat.files[id].collectionId == collection && cat.files[id].active
  }

  ghost predicate HasAccessibleCopy(cat: Catalog, f: FileRef) {
    exists c :: c in cat.claims && Serves(c, f) && CanAttach(cat, c) && RootAccessible(cat, c)
  }

  ghost predicate HasAttachableCopy(cat: Catalog, f: FileRef) {
    exists c :: c in cat.claims && Serves(c, f) && CanAttach(cat, c)
  }

  lemma ServesExactly(c: Claim, f: FileRef)
    ensures Matches(IdentityOf(f), c) <==> Serves(c, f)
  {
  }

  lemma OnDeviceExactly(cat: Catalog, c: Claim, d: Device)
    ensures OnDevice(cat, c, d) <==> IsOn(cat, c, d)
  {
  }

  lemma CopiesExactly(cat: Catalog, f: FileRef)
    ensures Attachable(cat, IdentityOf(f)) <==> HasAttachableCopy(cat, f)
    ensures Accessible(cat, IdentityOf(f)) <==> HasAccessibleCopy(cat, f)
  {
    hide Matches, OnDevice, IdentityOf, Serves, IsOn, Reachable, RootAccessible;
    var id := IdentityOf(f);
    forall i, k | 0 <= i < |cat.claims| && 0 <= k < |cat.devices|
      ensures Matches(id, cat.claims[i]) <==> Serves(cat.claims[i], f)
      ensures OnDevice(cat, cat.claims[i], cat.devices[k]) <==> IsOn(cat, cat.claims[i], cat.devices[k])
      ensures Reachable(cat, cat.claims[i]) <==> RootAccessible(cat, cat.claims[i])
    {
      ServesExactly(cat.claims[i], f);
      OnDeviceExactly(cat, cat.claims[i], cat.devices[k]);
      ReachableExactly(cat, cat.claims[i]);
    }
    if Attachable(cat, id) {
      var k :| 0 <= k < |cat.devices| && DeviceHolds(cat, cat.devices[k], id);
      var i :| 0 <= i < |cat.claims| && Matches(id, cat.claims[i]) && OnDevice(cat, cat.claims[i], cat.devices[k]);
      assert cat.claims[i] in cat.claims && cat.devices[k] in cat.devices && CanAttach(cat, cat.claims[i]);
    }
    if HasAttachableCopy(cat, f) {
      var i, k := Found(cat, f, false);
      assert DeviceHolds(cat, cat.devices[k], id);
    }
    if Accessible(cat, id) {
      var i, k :| && 0 <= i < |cat.claims| && 0 <= k < |cat.devices|
                  && Matches(id, cat.claims[i]) && OnDevice(cat, cat.claims[i], cat.devices[k]) && Reachable(cat, cat.claims[i]);
      assert cat.claims[i] in cat.claims && cat.devices[k] in cat.devices && CanAttach(cat, cat.claims[i]);
    }
    if HasAccessibleCopy(cat, f) {
      var i, k := Found(cat, f, true);
    }
  }

  lemma ReachableExactly(cat: Catalog, c: Claim)
    ensures Reachable(cat, c) <==> RootAccessible(cat, c)
  {
  }

  lemma Found(cat: Catalog, f: FileRef, accessible: bool) returns (i: nat, k: nat)
    requires if accessible then HasAccessibleCopy(cat, f) else HasAttachableCopy(cat, f)
    ensures i < |cat.claims| && k < |cat.devices| && Serves(cat.claims[i], f) && IsOn(cat, cat.claims[i], cat.devices[k])
    ensures accessible ==> RootAccessible(cat, cat.claims[i])
  {
    hide Serves, IsOn, RootAccessible;
    var c :| c in cat.claims && Serves(c, f) && CanAttach(cat, c) && (accessible ==> RootAccessible(cat, c));
    var d :| d in cat.devices && IsOn(cat, c, d);
    i :| 0 <= i < |cat.claims| && cat.claims[i] == c;
    k :| 0 <= k < |cat.devices| && cat.devices[k] == d;
  }

  /** The state of a requested file. */
  lemma StateExactly(cat: Catalog, collection: string, id: string)
    ensures var s := StateOf(cat, collection, id);
            && (s == NotFound <==> id !in cat.files)
            && (s == WrongCollection <==> id in cat.files && cat.files[id].collectionId != collection)
            && (s == Removed <==> id in cat.files && cat.files[id].collectionId == collection && !cat.files[id].active)
            && (s == IsAccessible <==> IsWanted(cat, collection, id) && HasAccessibleCopy(cat, cat.files[id]))
            && (s == AttachmentRequired <==>
                  && IsWanted(cat, collection, id) && HasAttachableCopy(cat, cat.files[id])
                  && !HasAccessibleCopy(cat, cat.files[id]))
            && (s == NoKnownCopy <==> IsWanted(cat, collection, id) && !HasAttachableCopy(cat, cat.files[id]))
  {
    hide Accessible, Attachable, HasAccessibleCopy, HasAttachableCopy, IdentityOf;
    if id in cat.files {
      CopiesExactly(cat, cat.files[id]);
      AccessibleAttachable(cat, cat.files[id]);
    }
  }

  lemma AccessibleAttachable(cat: Catalog, f: FileRef)
    ensures HasAccessibleCopy(cat, f) ==> HasAttachableCopy(cat, f)
  {
    hide Serves, CanAttach, RootAccessible;
  }

  /** Two requested files cannot be grouped together: one object under two annex keys. */
  lemma ClashExactly(cat: Catalog, collection: string, a: string, b: string)
    ensures Clash(cat, collection, a, b) <==>
            && IsWanted(cat, collection, a) && IsWanted(cat, collection, b)
            && cat.files[a].objectId.Some? && cat.files[a].objectId == cat.files[b].objectId
            && cat.files[a].externalId != cat.files[b].externalId
  {
  }

  // ----- the summary -----

  ghost function InState(cat: Catalog, collection: string, ids: seq<string>, s: FileState): set<nat> {
    set k: nat | k < |ids| && StateOf(cat, collection, ids[k]) == s
  }

  lemma {:induction false} StatesCounted(cat: Catalog, collection: string, ids: seq<string>, s: FileState)
    ensures CountState(cat, collection, ids, s) == |InState(cat, collection, ids, s)|
  {
    hide StateOf;
    if |ids| == 0 {
      assert InState(cat, collection, ids, s) == {};
    } else {
      var init, last := ids[..|ids| - 1], |ids| - 1;
      StatesCounted(cat, collection, init, s);
      var before := InState(cat, collection, init, s);
      forall k: nat
        ensures k in InState(cat, collection, ids, s) <==> k in before || (k == last && StateOf(cat, collection, ids[last]) == s)
      {
        if k < last { assert init[k] == ids[k]; }
      }
      if StateOf(cat, collection, ids[last]) == s {
        assert InState(cat, collection, ids, s) == before + {last} && last !in before;
      } else {
        assert InState(cat, collection, ids, s) == before;
      }
    }
  }

  /** Every number of the summary is the number of requests in its state. */
  lemma SummaryExactly(cat: Catalog, collection: string, ids: seq<string>)
    ensures var summary := SummaryOf(cat, collection, ids);
            && summary.accessible == |InState(cat, collection, ids, IsAccessible)|
            && summary.attachmentRequired == |InState(cat, collection, ids, AttachmentRequired)|
            && summary.noKnownCopy == |InState(cat, collection, ids, NoKnownCopy)|
            && summary.notFound == |InState(cat, collection, ids, NotFound)|
            && summary.wrongCollection == |InState(cat, collection, ids, WrongCollection)|
            && summary.removed == |InState(cat, collection, ids, Removed)|
  {
    hide CountState, InState;
    StatesCounted(cat, collection, ids, IsAccessible);
    StatesCounted(cat, collection, ids, AttachmentRequired);
    StatesCounted(cat, collection, ids, NoKnownCopy);
    StatesCounted(cat, collection, ids, NotFound);
    StatesCounted(cat, collection, ids, WrongCollection);
    StatesCounted(cat, collection, ids, Removed);
  }

  // ----- which claims make a difference -----

  /** The catalogs differ in claims only, and not in those that can be had by attaching a device. */
  ghost predicate SameAttachable(cat: Catalog, cat': Catalog) {
    && cat' == cat.(claims := cat'.claims)
    && forall c :: CanAttach(cat, c) ==> (c in cat.claims <==> c in cat'.claims)
  }

  lemma SameOn(cat: Catalog, cat': Catalog, c: Claim)
    requires cat' == cat.(claims := cat'.claims)
    ensures CanAttach(cat', c) <==> CanAttach(cat, c)
    ensures RootAccessible(cat', c) <==> RootAccessible(cat, c)
    ensures forall d :: IsOn(cat', c, d) <==> IsOn(cat, c, d)
  {
  }

  lemma SameCopies(cat: Catalog, cat': Catalog, f: FileRef)
    requires SameAttachable(cat, cat')
    ensures HasAccessibleCopy(cat', f) <==> HasAccessibleCopy(cat, f)
    ensures HasAttachableCopy(cat', f) <==> HasAttachableCopy(cat, f)
  {
    hide CanAttach, RootAccessible, Serves, IsOn;
    forall c ensures (CanAttach(cat', c) <==> CanAttach(cat, c)) && (RootAccessible(cat', c) <==> RootAccessible(cat, c)) {
      SameOn(cat, cat', c);
    }
  }

  /** A claim that is not present, or lies at an inactive location or on an inactive or unknown device, makes no
      difference to any state or summary. */
  lemma UselessClaims(cat: Catalog, cat': Catalog, collection: string, ids: seq<string>)
    requires SameAttachable(cat, cat')
    ensures forall id :: StateOf(cat', collection, id) == StateOf(cat, collection, id)
    ensures SummaryOf(cat', collection, ids) == SummaryOf(cat, collection, ids)
  {
    hide StateOf, HasAccessibleCopy, HasAttachableCopy, SameAttachable, CountState;
    assert cat'.files == cat.files by { FilesSame(cat, cat'); }
    forall id ensures StateOf(cat', collection, id) == StateOf(cat, collection, id) {
      StateExactly(cat, collection, id);
      StateExactly(cat', collection, id);
      if id in cat.files { SameCopies(cat, cat', cat.files[id]); }
    }
    forall s ensures CountState(cat', collection, ids, s) == CountState(cat, collection, ids, s) {
      StatesCounted(cat, collection, ids, s);
      StatesCounted(cat', collection, ids, s);
      assert InState(cat', collection, ids, s) == InState(cat, collection, ids, s);
    }
  }

  lemma FilesSame(cat: Catalog, cat': Catalog)
    requires SameAttachable(cat, cat')
    ensures cat'.files == cat.files && cat'.devices == cat.devices
  {
  }

  /** A copy of a requested file on an active device makes the file accessible or attachable; accessible exactly
      when its root is, or when the file was accessible already. */
  lemma AddedClaim(cat: Catalog, c: Claim, collection: string, id: string)
    requires IsWanted(cat, collection, id) && Serves(c, cat.files[id]) && CanAttach(cat, c)
    ensures var s := StateOf(cat.(claims := cat.claims + [c]), collection, id);
            && (s == IsAccessible || s == AttachmentRequired)
            && (s == IsAccessible <==> RootAccessible(cat, c) || StateOf(cat, collection, id) == IsAccessible)
  {
    hide StateOf, CanAttach, RootAccessible, Serves, IsOn;
    var cat' := cat.(claims := cat.claims + [c]);
    StateExactly(cat, collection, id);
    StateExactly(cat', collection, id);
    forall x ensures (CanAttach(cat', x) <==> CanAttach(cat, x)) && (RootAccessible(cat', x) <==> RootAccessible(cat, x)) {
      SameOn(cat, cat', x);
    }
    assert c in cat'.claims && forall x :: x in cat'.claims <==> x in cat.claims || x == c;
  }

  // ----- the plan -----

  /** The files of the table's rows whose identity satisfies `p`. */
  ghost function WeightOf(rows: seq<Content>, p: Identity -> bool): nat {
    if |rows| == 0 then 0
    else WeightOf(rows[..|rows| - 1], p) + if p(rows[|rows| - 1].identity) then rows[|rows| - 1].count else 0
  }

  lemma WeightSnoc(rows: seq<Content>, row: Content, p: Identity -> bool)
    ensures WeightOf(rows + [row], p) == WeightOf(rows, p) + if p(row.identity) then row.count else 0
  {
    assert (rows + [row])[..|rows|] == rows;
  }

  lemma {:induction false} WeightSame(rows: seq<Content>, p: Identity -> bool, q: Identity -> bool)
    requires forall id :: p(id) == q(id)
    ensures WeightOf(rows, p) == WeightOf(rows, q)
  {
    if |rows| > 0 { WeightSame(rows[..|rows| - 1], p, q); }
  }

  lemma {:induction false} AddedWeight(rows: seq<Content>, id: Identity, p: Identity -> bool)
    requires AddFile(rows, id).Ok?
    ensures WeightOf(AddFile(rows, id).value, p) == WeightOf(rows, p) + if p(id) then 1 else 0
  {
    var rows' := AddFile(rows, id).value;
    if |rows| == 0 {
      assert rows'[..0] == [];
    } else {
      var init, last := rows[..|rows| - 1], rows[|rows| - 1];
      if last.identity == id {
        assert rows'[..|rows'| - 1] == init;
      } else {
        AddedWeight(init, id, p);
        WeightSnoc(AddFile(init, id).value, last, p);
      }
    }
  }

  ghost function RequestsOf(cat: Catalog, collection: string, ids: seq<string>, p: Identity -> bool): set<nat> {
    set k: nat | k < |ids| && Wanted(cat, collection, ids[k]) && p(IdentityOf(cat.files[ids[k]]))
  }

  lemma RequestsSnoc(cat: Catalog, collection: string, ids: seq<string>, id: string, p: Identity -> bool)
    ensures |RequestsOf(cat, collection, ids + [id], p)| ==
            |RequestsOf(cat, collection, ids, p)| + if Wanted(cat, collection, id) && p(IdentityOf(cat.files[id])) then 1 else 0
  {
    hide IdentityOf;
    var before, all := RequestsOf(cat, collection, ids, p), RequestsOf(cat, collection, ids + [id], p);
    forall k: nat
      ensures k in all <==> k in before || (k == |ids| && Wanted(cat, collection, id) && p(IdentityOf(cat.files[id])))
    {
      if k < |ids| { assert (ids + [id])[k] == ids[k]; }
    }
    if Wanted(cat, collection, id) && p(IdentityOf(cat.files[id])) {
      assert all == before + {|ids|} && |ids| !in before;
    } else {
      assert all == before;
    }
  }

  /** Counting files in the table is counting requests. */
  lemma {:induction false} TableCounts(cat: Catalog, collection: string, ids: seq<string>, p: Identity -> bool)
    requires Grouped(cat, collection, ids).Ok?
    ensures WeightOf(Grouped(cat, collection, ids).value, p) == |RequestsOf(cat, collection, ids, p)|
  {
    hide AddFile, IdentityOf, RequestsOf, WeightOf;
    if |ids| == 0 {
      NoRequests(cat, collection, p);
      assert ids == [];
    } else {
      var init, id := ids[..|ids| - 1], ids[|ids| - 1];
      TableCounts(cat, collection, init, p);
      RequestsSnoc(cat, collection, init, id, p);
      assert init + [id] == ids;
      if Wanted(cat, collection, id) { AddedWeight(Grouped(cat, collection, init).value, IdentityOf(cat.files[id]), p); }
    }
  }

  lemma NoRequests(cat: Catalog, collection: string, p: Identity -> bool)
    ensures RequestsOf(cat, collection, [], p) == {} && WeightOf([], p) == 0
  {
  }

  lemma {:induction false} UncoveredCounts(cat: Catalog, rows: seq<Content>, p: Identity -> bool)
    ensures WeightOf(Uncovered(Flagged(cat, rows)), p) == WeightOf(rows, id => !Accessible(cat, id) && p(id))
  {
    hide Accessible, Attachable, Uncovered, Flagged;
    if |rows| == 0 {
      NothingFlagged(cat, rows);
    } else {
      var init, last := rows[..|rows| - 1], rows[|rows| - 1];
      UncoveredCounts(cat, init, p);
      UncoveredSnoc(cat, rows);
      WeightSnoc(Uncovered(Flagged(cat, init)),
                 last.(accessible := Accessible(cat, last.identity), attachable := Attachable(cat, last.identity)), p);
    }
  }

  lemma NothingFlagged(cat: Catalog, rows: seq<Content>)
    requires |rows| == 0
    ensures Uncovered(Flagged(cat, rows)) == []
  {
  }

  lemma {:induction false} WithoutCounts(cat: Catalog, rows: seq<Content>, d: Device, p: Identity -> bool)
    ensures WeightOf(Without(cat, rows, d), p) == WeightOf(rows, id => !DeviceHolds(cat, d, id) && p(id))
  {
    hide DeviceHolds;
    if |rows| > 0 {
      var init, last := rows[..|rows| - 1], rows[|rows| - 1];
      WithoutCounts(cat, init, d, p);
      WeightSnoc(Without(cat, init, d), last, p);
      assert Without(cat, init, d) + [] == Without(cat, init, d);
    }
  }

  predicate HeldEarlier(cat: Catalog, steps: seq<AttachmentStep>, id: Identity) {
    exists j :: 0 <= j < |steps| && DeviceHolds(cat, steps[j].device, id)
  }

  lemma {:induction false} RemainingCounts(cat: Catalog, rows: seq<Content>, steps: seq<AttachmentStep>, p: Identity -> bool)
    ensures WeightOf(Remaining(cat, rows, steps), p) == WeightOf(rows, id => !HeldEarlier(cat, steps, id) && p(id))
  {
    hide DeviceHolds, Without, WeightOf;
    if |steps| == 0 {
      WeightSame(rows, p, id => !HeldEarlier(cat, steps, id) && p(id));
    } else {
      var init, d := steps[..|steps| - 1], steps[|steps| - 1].device;
      WithoutCounts(cat, Remaining(cat, rows, init), d, p);
      var q := id => !DeviceHolds(cat, d, id) && p(id);
      RemainingCounts(cat, rows, init, q);
      forall id ensures HeldEarlier(cat, steps, id) <==> HeldEarlier(cat, init, id) || DeviceHolds(cat, d, id) {
        HeldSnoc(cat, steps, id);
      }
      WeightSame(rows, id => !HeldEarlier(cat, init, id) && q(id), id => !HeldEarlier(cat, steps, id) && p(id));
    }
  }

  lemma HeldSnoc(cat: Catalog, steps: seq<AttachmentStep>, id: Identity)
    requires |steps| > 0
    ensures HeldEarlier(cat, steps, id) <==>
            HeldEarlier(cat, steps[..|steps| - 1], id) || DeviceHolds(cat, steps[|steps| - 1].device, id)
  {
    hide DeviceHolds;
    assert forall j :: 0 <= j < |steps| - 1 ==> steps[..|steps| - 1][j] == steps[j];
  }

  lemma {:induction false} CoveredCounts(cat: Catalog, d: Device, rows: seq<Content>)
    ensures CoveredBy(cat, d, rows) == WeightOf(rows, id => DeviceHolds(cat, d, id))
  {
    hide DeviceHolds;
    if |rows| > 0 { CoveredCounts(cat, d, rows[..|rows| - 1]); }
  }

  /** The device holds a copy of the file. */
  ghost predicate HoldsCopy(cat: Catalog, d: Device, f: FileRef) {
    exists c :: c in cat.claims && Serves(c, f) && IsOn(cat, c, d)
  }

  /** The requested files that attaching `d` makes available, after these devices: those with no accessible copy,
      with a copy on `d`, and with none on a device attached before. */
  ghost function Gain(cat: Catalog, collection: string, ids: seq<string>, before: seq<AttachmentStep>, d: Device): set<nat> {
    set k: nat | k < |ids| && IsWanted(cat, collection, ids[k]) && !HasAccessibleCopy(cat, cat.files[ids[k]])
                 && HoldsCopy(cat, d, cat.files[ids[k]])
                 && forall j :: 0 <= j < |before| ==> !HoldsCopy(cat, before[j].device, cat.files[ids[k]])
  }

  lemma HoldsExactly(cat: Catalog, d: Device, f: FileRef)
    ensures DeviceHolds(cat, d, IdentityOf(f)) <==> HoldsCopy(cat, d, f)
  {
    hide Matches, OnDevice, IdentityOf, Serves, IsOn;
    forall i | 0 <= i < |cat.claims|
      ensures Matches(IdentityOf(f), cat.claims[i]) <==> Serves(cat.claims[i], f)
      ensures OnDevice(cat, cat.claims[i], d) <==> IsOn(cat, cat.claims[i], d)
      ensures cat.claims[i] in cat.claims
    {
      ServesExactly(cat.claims[i], f);
      OnDeviceExactly(cat, cat.claims[i], d);
    }
    if HoldsCopy(cat, d, f) {
      var c :| c in cat.claims && Serves(c, f) && IsOn(cat, c, d);
      var i :| 0 <= i < |cat.claims| && cat.claims[i] == c;
    }
  }

  /** What a device covers of the rows left is its gain. */
  lemma CoveredIsGain(cat: Catalog, collection: string, ids: seq<string>, before: seq<AttachmentStep>, d: Device)
    requires Grouped(cat, collection, ids).Ok?
    ensures var rows := Uncovered(Flagged(cat, Grouped(cat, collection, ids).value));
            CoveredBy(cat, d, Remaining(cat, rows, before)) == |Gain(cat, collection, ids, before, d)|
  {
    hide Grouped, Uncovered, Flagged, CoveredBy, Remaining, Accessible, DeviceHolds, HeldEarlier, WeightOf, HasAccessibleCopy, HoldsCopy,
         IdentityOf;
    var table := Grouped(cat, collection, ids).value;
    var rows := Uncovered(Flagged(cat, table));
    var p := (id: Identity) => DeviceHolds(cat, d, id);
    var q := (id: Identity) => !HeldEarlier(cat, before, id) && p(id);
    var r := (id: Identity) => !Accessible(cat, id) && q(id);
    CoveredCounts(cat, d, Remaining(cat, rows, before));
    WeightSame(Remaining(cat, rows, before), p, id => DeviceHolds(cat, d, id));
    RemainingCounts(cat, rows, before, p);
    WeightSame(rows, q, id => !HeldEarlier(cat, before, id) && p(id));
    UncoveredCounts(cat, table, q);
    WeightSame(table, r, id => !Accessible(cat, id) && q(id));
    TableCounts(cat, collection, ids, r);
    GainIs(cat, collection, ids, before, d, r);
  }

  lemma GainIs(cat: Catalog, collection: string, ids: seq<string>, before: seq<AttachmentStep>, d: Device, r: Identity -> bool)
    requires forall id :: r(id) <==> !Accessible(cat, id) && !HeldEarlier(cat, before, id) && DeviceHolds(cat, d, id)
    ensures RequestsOf(cat, collection, ids, r) == Gain(cat, collection, ids, before, d)
  {
    hide Accessible, DeviceHolds, HasAccessibleCopy, HoldsCopy, IdentityOf;
    forall f ensures Accessible(cat, IdentityOf(f)) <==> HasAccessibleCopy(cat, f) { CopiesExactly(cat, f); }
    forall f, e ensures DeviceHolds(cat, e, IdentityOf(f)) <==> HoldsCopy(cat, e, f) { HoldsExactly(cat, e, f); }
  }

  /** A plan, step by step: each device makes available exactly the files counted for it, no device would give
      more, and with equal gains the first device is taken. */
  lemma PlanStepIs(cat: Catalog, collection: string, ids: seq<string>, steps: seq<AttachmentStep>, i: nat)
    requires Grouped(cat, collection, ids).Ok? && i < |steps|
    requires IsGreedy(cat, Uncovered(Flagged(cat, Grouped(cat, collection, ids).value)), steps)
    ensures steps[i].newlyCovered == |Gain(cat, collection, ids, steps[..i], steps[i].device)| > 0
    ensures exists k :: 0 <= k < |cat.devices| && cat.devices[k] == steps[i].device
              && (forall j :: 0 <= j < |cat.devices| ==>
                    |Gain(cat, collection, ids, steps[..i], cat.devices[j])| <= steps[i].newlyCovered)
              && (forall j :: 0 <= j < k ==> |Gain(cat, collection, ids, steps[..i], cat.devices[j])| < steps[i].newlyCovered)
  {
    hide Grouped, Uncovered, Flagged, CoveredBy, Remaining, Gain;
    var rows := Uncovered(Flagged(cat, Grouped(cat, collection, ids).value));
    var left := Remaining(cat, rows, steps[..i]);
    assert GreedyStep(cat, left, steps[i]);
    var k: nat :| IsBest(cat, left, k, steps[i].newlyCovered) && cat.devices[k] == steps[i].device;
    forall j | 0 <= j < |cat.devices|
      ensures CoveredBy(cat, cat.devices[j], left) == |Gain(cat, collection, ids, steps[..i], cat.devices[j])|
    {
      CoveredIsGain(cat, collection, ids, steps[..i], cat.devices[j]);
    }
  }

  /** When a plan covers all that needs a device, no device would give more. */
  lemma PlanEnds(cat: Catalog, collection: string, ids: seq<string>, steps: seq<AttachmentStep>, d: Device)
    requires Grouped(cat, collection, ids).Ok? && d in cat.devices
    requires IsGreedy(cat, Uncovered(Flagged(cat, Grouped(cat, collection, ids).value)), steps)
    requires TotalCovered(steps) == SummaryOf(cat, collection, ids).attachmentRequired
    ensures Gain(cat, collection, ids, steps, d) == {}
  {
    hide Grouped, Uncovered, Flagged, CoveredBy, Remaining, Gain, IsGreedy, AttachableWeight, TotalCovered, CountState, Weight, StateWeight;
    var table := Grouped(cat, collection, ids).value;
    var rows := Uncovered(Flagged(cat, table));
    GreedyConserves(cat, rows, steps);
    GroupedWeights(cat, collection, ids, AttachmentRequired);
    UncoveredWeights(cat, table);
    CoveredAttachable(cat, d, Remaining(cat, rows, steps));
    CoveredIsGain(cat, collection, ids, steps, d);
  }

  lemma {:induction false} CoveredAttachable(cat: Catalog, d: Device, rows: seq<Content>)
    requires d in cat.devices
    ensures CoveredBy(cat, d, rows) <= AttachableWeight(cat, rows)
  {
    hide DeviceHolds;
    if |rows| > 0 {
      CoveredAttachable(cat, d, rows[..|rows| - 1]);
      var k :| 0 <= k < |cat.devices| && cat.devices[k] == d;
    }
  }

  lemma SameHolds(cat: Catalog, cat': Catalog, d: Device, id: Identity)
    requires SameAttachable(cat, cat') && d in cat.devices
    ensures DeviceHolds(cat', d, id) <==> DeviceHolds(cat, d, id)
  {
    hide Matches, OnDevice, IsOn;
    forall c ensures (OnDevice(cat, c, d) <==> IsOn(cat, c, d)) && (OnDevice(cat', c, d) <==> IsOn(cat, c, d)) {
      OnDeviceExactly(cat, c, d);
      OnDeviceExactly(cat', c, d);
      SameOn(cat, cat', c);
    }
    if DeviceHolds(cat, d, id) {
      var i :| 0 <= i < |cat.claims| && Matches(id, cat.claims[i]) && OnDevice(cat, cat.claims[i], d);
      assert CanAttach(cat, cat.claims[i]) && cat.claims[i] in cat.claims;
      var j :| 0 <= j < |cat'.claims| && cat'.claims[j] == cat.claims[i];
    }
    if DeviceHolds(cat', d, id) {
      var i :| 0 <= i < |cat'.claims| && Matches(id, cat'.claims[i]) && OnDevice(cat', cat'.claims[i], d);
      assert CanAttach(cat, cat'.claims[i]) && cat'.claims[i] in cat'.claims;
      var j :| 0 <= j < |cat.claims| && cat.claims[j] == cat'.claims[i];
    }
  }

  lemma {:induction false} SameCovered(cat: Catalog, cat': Catalog, d: Device, rows: seq<Content>)
    requires SameAttachable(cat, cat') && d in cat.devices
    ensures CoveredBy(cat', d, rows) == CoveredBy(cat, d, rows) && Without(cat', rows, d) == Without(cat, rows, d)
  {
    hide DeviceHolds, SameAttachable;
    if |rows| > 0 {
      SameCovered(cat, cat', d, rows[..|rows| - 1]);
      SameHolds(cat, cat', d, rows[|rows| - 1].identity);
    }
  }

  lemma SameStep(cat: Catalog, cat': Catalog, left: seq<Content>, step: AttachmentStep)
    requires SameAttachable(cat, cat') && GreedyStep(cat, left, step)
    ensures GreedyStep(cat', left, step) && Without(cat', left, step.device) == Without(cat, left, step.device)
  {
    hide SameAttachable, CoveredBy, Without;
    FilesSame(cat, cat');
    forall j | 0 <= j < |cat.devices| ensures CoveredBy(cat', cat.devices[j], left) == CoveredBy(cat, cat.devices[j], left) {
      SameCovered(cat, cat', cat.devices[j], left);
    }
    var k: nat :| IsBest(cat, left, k, step.newlyCovered) && cat.devices[k] == step.device;
    assert IsBest(cat', left, k, step.newlyCovered);
    SameCovered(cat, cat', step.device, left);
  }

  lemma {:induction false} SameRemaining(cat: Catalog, cat': Catalog, rows: seq<Content>, steps: seq<AttachmentStep>, n: nat)
    requires SameAttachable(cat, cat') && IsGreedy(cat, rows, steps) && n <= |steps|
    ensures Remaining(cat', rows, steps[..n]) == Remaining(cat, rows, steps[..n])
    ensures n < |steps| ==> GreedyStep(cat', Remaining(cat', rows, steps[..n]), steps[n])
  {
    hide SameAttachable, GreedyStep, Without, Remaining;
    if n == 0 {
      assert steps[..0] == [];
      NoSteps(cat, rows);
      NoSteps(cat', rows);
    } else {
      SameRemaining(cat, cat', rows, steps, n - 1);
      SameStep(cat, cat', Remaining(cat, rows, steps[..n - 1]), steps[n - 1]);
      RemainingSnoc(cat, rows, steps, n - 1);
      RemainingSnoc(cat', rows, steps, n - 1);
    }
    if n < |steps| { SameStep(cat, cat', Remaining(cat, rows, steps[..n]), steps[n]); }
  }

  lemma SameGreedy(cat: Catalog, cat': Catalog, rows: seq<Content>, steps: seq<AttachmentStep>)
    requires SameAttachable(cat, cat') && IsGreedy(cat, rows, steps)
    ensures IsGreedy(cat', rows, steps)
  {
    hide SameAttachable, GreedyStep, Remaining;
    forall i | 0 <= i < |steps| ensures GreedyStep(cat', Remaining(cat', rows, steps[..i]), steps[i]) {
      SameRemaining(cat, cat', rows, steps, i);
    }
  }

  lemma SameFlags(cat: Catalog, cat': Catalog, id: Identity)
    requires SameAttachable(cat, cat')
    ensures Attachable(cat', id) <==> Attachable(cat, id)
    ensures Accessible(cat', id) <==> Accessible(cat, id)
  {
    hide DeviceHolds, SameAttachable, IdentityOf;
    FilesSame(cat, cat');
    forall k | 0 <= k < |cat.devices| ensures DeviceHolds(cat', cat.devices[k], id) <==> DeviceHolds(cat, cat.devices[k], id) {
      SameHolds(cat, cat', cat.devices[k], id);
    }
    var f := FileRef("", "", true, id.objectId, id.externalId);
    forall c ensures Matches(IdentityOf(f), c) <==> Matches(id, c) { IdentityFields(f); }
    CopiesExactly(cat, f);
    CopiesExactly(cat', f);
    SameCopies(cat, cat', f);
    SameServed(cat, id, IdentityOf(f));
    SameServed(cat', id, IdentityOf(f));
  }

  lemma IdentityFields(f: FileRef)
    ensures IdentityOf(f).objectId == f.objectId && IdentityOf(f).externalId == f.externalId
  {
  }

  lemma SameServed(cat: Catalog, a: Identity, b: Identity)
    requires forall c :: Matches(b, c) <==> Matches(a, c)
    ensures Accessible(cat, a) <==> Accessible(cat, b)
  {
  }

  lemma {:induction false} SameTable(cat: Catalog, cat': Catalog, collection: string, ids: seq<string>)
    requires SameAttachable(cat, cat')
    ensures Grouped(cat', collection, ids) == Grouped(cat, collection, ids)
  {
    hide SameAttachable, AddFile;
    FilesSame(cat, cat');
    if |ids| > 0 { SameTable(cat, cat', collection, ids[..|ids| - 1]); }
  }

  /** And it makes no difference to the plan. */
  lemma UselessForPlan(cat: Catalog, cat': Catalog, collection: string, ids: seq<string>, steps: seq<AttachmentStep>)
    requires SameAttachable(cat, cat')
    ensures Grouped(cat', collection, ids) == Grouped(cat, collection, ids)
    ensures Grouped(cat, collection, ids).Ok? ==>
              var table := Grouped(cat, collection, ids).value;
              && Flagged(cat', table) == Flagged(cat, table)
              && (IsGreedy(cat', Uncovered(Flagged(cat', table)), steps) <==> IsGreedy(cat, Uncovered(Flagged(cat, table)), steps))
  {
    hide Grouped, Accessible, Attachable, IsGreedy, Uncovered, SameAttachable;
    SameTable(cat, cat', collection, ids);
    if Grouped(cat, collection, ids).Ok? {
      var table := Grouped(cat, collection, ids).value;
      forall i | 0 <= i < |table| ensures Flagged(cat', table)[i] == Flagged(cat, table)[i] {
        SameFlags(cat, cat', table[i].identity);
      }
      assert Flagged(cat', table) == Flagged(cat, table);
      var rows := Uncovered(Flagged(cat, table));
      if IsGreedy(cat, rows, steps) { SameGreedy(cat, cat', rows, steps); }
      SameBack(cat, cat');
      if IsGreedy(cat', rows, steps) { SameGreedy(cat', cat, rows, steps); }
    }
  }

  lemma SameBack(cat: Catalog, cat': Catalog)
    requires SameAttachable(cat, cat')
    ensures SameAttachable(cat', cat)
  {
    hide IsOn;
    forall c ensures CanAttach(cat', c) <==> CanAttach(cat, c) { SameOn(cat, cat', c); }
  }
}
