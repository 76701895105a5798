/** Content observations and annex entries of one logical path, and its conflicts. */
module ContentConflict {
  import opened Wrappers

  datatype Observed = Observed(
    objectId: string, externalId: Option<string>, originId: string, originSeq: nat, frontier: seq<(string, nat)>)

  /** An annex entry: the content of its key if that is known, and whether its bytes are absent here. */
  datatype AnnexEntry = AnnexEntry(
    objectId: Option<string>, externalId: string, resolution: string, absent: bool, originId: string, originSeq: nat)

  datatype Item = Content(o: Observed) | Annex(a: AnnexEntry)

  /** The file row of a path: its content, its state and the record that last set it. */
  datatype FileRow = FileRow(
    objectId: Option<string>, externalId: Option<string>, state: string, lastOrigin: string, lastSeq: nat)

  const CONFLICT := "conflict"
  const RESOLVED := "resolved"

  /** Had the observer already accepted the record that last set the file? */
  predicate Descends(o: Observed, originId: string, originSeq: nat) {
    exists i :: 0 <= i < |o.frontier| && o.frontier[i].0 == originId && o.frontier[i].1 >= originSeq
  }

  predicate Knows(later: Observed, earlier: Observed) { Descends(later, earlier.originId, earlier.originSeq) }

  /** The conflict test of `project_content_observed`. */
  predicate InConflict(existing: Option<FileRow>, o: Observed) {
    existing.Some? &&
    (existing.value.state == CONFLICT ||
     (existing.value.objectId.Some? && existing.value.objectId.value != o.objectId
      && !Descends(o, existing.value.lastOrigin, existing.value.lastSeq)))
  }

  function EntryState(a: AnnexEntry): string {
    if a.objectId.Some? then RESOLVED else if a.resolution == "unsupported" then "unknown" else a.resolution
  }

  /** A repeated absent entry does not rewrite an unchanged file. */
  predicate Unchanged(row: FileRow, a: AnnexEntry) {
    a.absent && row.externalId == Some(a.externalId) && row.objectId == a.objectId && row.state == EntryState(a)
  }

  function Project(existing: Option<FileRow>, item: Item): FileRow {
    match item
    case Content(o) =>
      var conflict := InConflict(existing, o);
      var external := if o.externalId.Some? || existing.None? then o.externalId else existing.value.externalId;
      FileRow(if conflict then None else Some(o.objectId), external, if conflict then CONFLICT else RESOLVED, o.originId, o.originSeq)
    case Annex(a) =>
      if existing.Some? && Unchanged(existing.value, a) then existing.value
      else FileRow(a.objectId, Some(a.externalId), EntryState(a), a.originId, a.originSeq)
  }

  /** The observer's frontier covers the record: it lists the record's origin at that record or a later one. */
  ghost predicate Accepted(o: Observed, originId: string, originSeq: nat) {
    exists n: nat :: n >= originSeq && (originId, n) in o.frontier
  }

  /** What a content observation makes of a path: a conflict when the path is in conflict already, or when it shows
      other content by a record that the observer had not accepted; else it resolves to what was observed. */
  lemma ContentProjected(existing: Option<FileRow>, o: Observed)
    ensures var row := Project(existing, Content(o));
            && (row.state == "conflict" <==>
                  existing.Some? && (|| existing.value.state == "conflict"
                                     || (existing.value.objectId.Some? && existing.value.objectId != Some(o.objectId)
                                         && !Accepted(o, existing.value.lastOrigin, existing.value.lastSeq))))
            && (row.state != "conflict" ==> row.state == "resolved")
            && row.objectId == (if row.state == "conflict" then None else Some(o.objectId))
            && row.lastOrigin == o.originId && row.lastSeq == o.originSeq
            && (o.externalId.Some? ==> row.externalId == o.externalId)
            && (o.externalId.None? ==> row.externalId == if existing.Some? then existing.value.externalId else None)
  {
    if existing.Some? {
      var origin, seqNo := existing.value.lastOrigin, existing.value.lastSeq;
      if i :| 0 <= i < |o.frontier| && o.frontier[i].0 == origin && o.frontier[i].1 >= seqNo {
        assert o.frontier[i] == (origin, o.frontier[i].1) && Accepted(o, origin, seqNo);
      }
      if n: nat :| n >= seqNo && (origin, n) in o.frontier {
        var i :| 0 <= i < |o.frontier| && o.frontier[i] == (origin, n);
      }
    }
  }

  /** What an annex entry makes of it: the content and the state of its key, except that an absent entry that says
      nothing new changes nothing, not even the record that last set the path. */
  lemma AnnexProjected(existing: Option<FileRow>, a: AnnexEntry)
    ensures var row := Project(existing, Annex(a));
            && row.objectId == a.objectId && row.externalId == Some(a.externalId)
            && row.state == (if a.objectId.Some? then "resolved" else if a.resolution == "unsupported" then "unknown" else a.resolution)
            && if a.absent && existing.Some? && existing.value.(lastOrigin := row.lastOrigin, lastSeq := row.lastSeq) == row
               then row == existing.value else row.lastOrigin == a.originId && row.lastSeq == a.originSeq
  {
  }

  function Replay(items: seq<Item>): Option<FileRow> {
    if |items| == 0 then None
    else Some(Project(Replay(items[..|items| - 1]), items[|items| - 1]))
  }

  lemma ReplayNext(items: seq<Item>, i: nat)
    requires i < |items|
    ensures Replay(items[..i + 1]) == Some(Project(Replay(items[..i]), items[i]))
  {
    assert items[..i + 1][..i] == items[..i];
  }

  predicate ConflictAt(items: seq<Item>, k: nat)
    requires k <= |items|
  {
    Replay(items[..k]).Some? && Replay(items[..k]).value.state == CONFLICT
  }

  /** An annex entry sets the state of its file without looking at the state it has. */
  predicate Settles(item: Item) { item.Annex? && EntryState(item.a) != CONFLICT }

  lemma ConflictNext(items: seq<Item>, i: nat)
    requires i < |items| && ConflictAt(items, i)
    ensures ConflictAt(items, i + 1) <==> !Settles(items[i])
  {
    hide Descends;
    ReplayNext(items, i);
  }

  /** Once in conflict, a path stays in conflict, whatever contents are observed later, exactly as long as no
      annex entry of another state is projected for it. */
  lemma ConflictStays(items: seq<Item>, i: nat)
    requires i <= |items| && ConflictAt(items, i)
    ensures (forall k :: i <= k <= |items| ==> ConflictAt(items, k)) <==> (forall j :: i <= j < |items| ==> !Settles(items[j]))
    ensures forall k :: i <= k <= |items| && ConflictAt(items, k) ==> Replay(items[..k]).value.objectId == None
  {
    hide ConflictAt, Settles;
    forall k | i <= k <= |items| && ConflictAt(items, k) ensures Replay(items[..k]).Some? && Replay(items[..k]).value.objectId == None {
      NoContent(items, k);
    }
    if forall k :: i <= k <= |items| ==> ConflictAt(items, k) {
      forall j | i <= j < |items| ensures !Settles(items[j]) {
        ConflictNext(items, j);
      }
    }
    if forall j :: i <= j < |items| ==> !Settles(items[j]) {
      StaysThrough(items, i, |items|);
    }
  }

  /** A path in conflict has no content. */
  lemma NoContent(items: seq<Item>, k: nat)
    requires k <= |items| && ConflictAt(items, k)
    ensures Replay(items[..k]).Some? && Replay(items[..k]).value.objectId == None
  {
    hide Descends;
    ReplayNext(items, k - 1);
  }

  lemma {:induction false} StaysThrough(items: seq<Item>, i: nat, n: nat)
    requires i <= n <= |items| && ConflictAt(items, i) && forall j :: i <= j < |items| ==> !Settles(items[j])
    ensures forall k :: i <= k <= n ==> ConflictAt(items, k)
    decreases n
  {
    hide ConflictAt, Settles;
    if i < n {
      StaysThrough(items, i, n - 1);
      ConflictNext(items, n - 1);
    }
  }

  function Contents(observations: seq<Observed>): seq<Item> {
    seq(|observations|, i requires 0 <= i < |observations| => Content(observations[i]))
  }

  /** No observer knew of another. */
  ghost predicate Concurrent(observations: seq<Observed>) {
    forall x, y :: x in observations && y in observations && x != y ==> !Knows(x, y)
  }

  ghost predicate SameContent(observations: seq<Observed>) {
    forall x, y :: x in observations && y in observations ==> x.objectId == y.objectId
  }

  /** Concurrent observers end in conflict exactly when any two of them saw different contents. */
  lemma {:induction false} ConcurrentExactly(observations: seq<Observed>)
    requires |observations| > 0 && Concurrent(observations)
    ensures var last := observations[|observations| - 1]; var row := Replay(Contents(observations));
            && row.Some? && row.value.lastOrigin == last.originId && row.value.lastSeq == last.originSeq
            && (if SameContent(observations) then row.value.state == RESOLVED && row.value.objectId == Some(last.objectId)
                else row.value.state == CONFLICT && row.value.objectId == None)
  {
    hide Descends, Concurrent, SameContent;
    var n := |observations| - 1;
    var init, last := observations[..n], observations[n];
    assert Contents(observations)[..n] == Contents(init);
    OneMore(observations);
    if n > 0 { ConcurrentExactly(init); }
  }

  lemma OneMore(observations: seq<Observed>)
    requires |observations| > 0 && Concurrent(observations)
    ensures var n := |observations| - 1;
            && Concurrent(observations[..n])
            && (SameContent(observations) <==>
                (n > 0 ==> SameContent(observations[..n]) && observations[n - 1].objectId == observations[n].objectId))
            && (n > 0 && observations[n - 1].objectId != observations[n].objectId ==> !Knows(observations[n], observations[n - 1]))
  {
    hide Knows;
    var n := |observations| - 1;
    var init, last := observations[..n], observations[n];
    assert forall x :: x in observations <==> x in init || x == last;
    if n > 0 {
      assert init[n - 1] in init;
    }
  }

  /** In whatever order concurrent observations are replayed, the path ends in the same state. */
  lemma ConcurrentAnyOrder(a: seq<Observed>, b: seq<Observed>)
    requires |a| > 0 && Concurrent(a) && multiset(a) == multiset(b)
    ensures var x, y := Replay(Contents(a)), Replay(Contents(b));
            x.Some? && y.Some? && x.value.state == y.value.state && x.value.objectId == y.value.objectId
  {
    hide Descends, Replay;
    assert forall x :: x in a <==> x in multiset(a);
    assert forall x :: x in b <==> x in multiset(b);
    assert |a| == |multiset(a)| == |multiset(b)| == |b|;
    ConcurrentExactly(a);
    ConcurrentExactly(b);
    assert a[|a| - 1] in b;
  }

  /** A conflict that an unresolved annex entry of the path removes, so that the next observer decides alone. */
  lemma AnnexSettles(a: Observed, b: Observed, c: Observed, entry: AnnexEntry)
    requires !Knows(b, a) && a.objectId != b.objectId && entry.objectId.None? && entry.resolution == "unresolved"
    ensures var items := [Content(a), Content(b), Annex(entry), Content(c)];
            && ConflictAt(items, 2) && !ConflictAt(items, 3)
            && Replay(items[..4]).value.state == RESOLVED && Replay(items[..4]).value.objectId == Some(c.objectId)
  {
    hide Descends;
    var items := [Content(a), Content(b), Annex(entry), Content(c)];
    assert items[..0] == [];
    ReplayNext(items, 0);
    ReplayNext(items, 1);
    ReplayNext(items, 2);
    ReplayNext(items, 3);
  }

  /** A history in which every observer knew of the one before resolves to the last content. */
  lemma {:induction false} CausalHistoryResolves(observations: seq<Observed>)
    requires |observations| > 0
    requires forall i :: 0 < i < |observations| ==> Knows(observations[i], observations[i - 1])
    ensures var last := observations[|observations| - 1]; var row := Replay(Contents(observations));
            row.Some? && row.value == FileRow(Some(last.objectId), row.value.externalId, RESOLVED, last.originId, last.originSeq)
  {
    hide Descends;
    var n := |observations| - 1;
    var init := observations[..n];
    assert Contents(observations)[..n] == Contents(init);
    if n > 0 {
      forall i | 0 < i < n ensures Knows(init[i], init[i - 1]) {
        assert init[i] == observations[i] && init[i - 1] == observations[i - 1];
      }
      CausalHistoryResolves(init);
      assert Knows(observations[n], observations[n - 1]);
    }
  }
}
